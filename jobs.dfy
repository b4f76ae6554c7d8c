/**
 * The job list of the tiny shell as values: a sequence of slots and the
 * counter `nextjid` (tsh.c, lines 42-51 and 282-427).  Every helper routine
 * that manipulates the job list is given here as a function of the list; the
 * class in jobtable.dfy runs the same routines in place, on an array, and is
 * proved to agree with these functions.
 */
module Jobs {
  import opened Options
  import opened Limits
  import opened Format

  /** One slot (struct job_t).  A slot whose pid is 0 is empty. */
  datatype Job = Job(pid: int, jid: int, state: int, cmdline: string)

  /** What clearjob leaves in a slot: pid 0, jid 0, state UNDEF, empty command line. */
  const Cleared: Job := Job(0, 0, Undef, [])

  /** The job list and the id the next added job receives. */
  datatype Table = Table(slots: seq<Job>, nextjid: int)

  function EmptySlots(n: nat): (s: seq<Job>)
    ensures |s| == n
    ensures forall i :: 0 <= i < n ==> s[i] == Cleared
  {
    seq(n, _ => Cleared)
  }

  /**
   * What the job-list routines keep true: sixteen slots, every empty slot
   * fully cleared, every occupied slot with a positive pid and a positive
   * jid, and a positive next id.  (Unique job ids are NOT kept: see README.)
   */
  predicate Consistent(t: Table) {
    && |t.slots| == MaxJobs
    && t.nextjid >= 1
    && forall i :: 0 <= i < |t.slots| ==>
         if t.slots[i].pid == 0 then t.slots[i] == Cleared
         else t.slots[i].pid >= 1 && t.slots[i].jid >= 1
  }

  /** The three fields the routines search by. */
  datatype Field = PidField | JidField | StateField

  function Key(j: Job, f: Field): int {
    match f
    case PidField => j.pid
    case JidField => j.jid
    case StateField => j.state
  }

  /** The index of the first slot whose field `f` is `v`, scanning up from slot 0. */
  function FirstWith(s: seq<Job>, f: Field, v: int): (r: Option<nat>)
    ensures r.Some? ==> r.value < |s| && Key(s[r.value], f) == v
    ensures r.Some? ==> forall j :: 0 <= j < r.value ==> Key(s[j], f) != v
    ensures r.None? <==> forall j :: 0 <= j < |s| ==> Key(s[j], f) != v
  {
    if |s| == 0 then None
    else if Key(s[0], f) == v then Some(0)
    else match FirstWith(s[1..], f, v)
      case None => None
      case Some(k) => Some(k + 1)
  }

  /** The first empty slot, as addjob looks for it. */
  function FreeSlot(s: seq<Job>): Option<nat> {
    FirstWith(s, PidField, 0)
  }

  /** maxjid: the largest jid in the list; 0 when every jid is at most 0. */
  function MaxJid(s: seq<Job>): (m: int)
    ensures m >= 0
    ensures forall i :: 0 <= i < |s| ==> s[i].jid <= m
    ensures m == 0 || exists i :: 0 <= i < |s| && s[i].jid == m
  {
    if s == [] then 0
    else
      var m0 := MaxJid(s[..|s| - 1]);
      if s[|s| - 1].jid > m0 then s[|s| - 1].jid else m0
  }

  /** getjobpid: the slot of the first job with this pid, none for a pid below 1. */
  function JobWithPid(s: seq<Job>, pid: int): (r: Option<nat>)
    ensures r.Some? ==> pid >= 1 && r.value < |s| && s[r.value].pid == pid
    ensures r.Some? ==> forall j :: 0 <= j < r.value ==> s[j].pid != pid
    ensures r.None? <==> pid < 1 || forall j :: 0 <= j < |s| ==> s[j].pid != pid
  {
    if pid < 1 then None else FirstWith(s, PidField, pid)
  }

  /** getjobjid: the slot of the first job with this jid, none for a jid below 1. */
  function JobWithJid(s: seq<Job>, jid: int): (r: Option<nat>)
    ensures r.Some? ==> jid >= 1 && r.value < |s| && s[r.value].jid == jid
    ensures r.Some? ==> forall j :: 0 <= j < r.value ==> s[j].jid != jid
    ensures r.None? <==> jid < 1 || forall j :: 0 <= j < |s| ==> s[j].jid != jid
  {
    if jid < 1 then None else FirstWith(s, JidField, jid)
  }

  /** pid2jid: the jid of the first job with this pid, 0 for a pid below 1 or no such job. */
  function Pid2Jid(s: seq<Job>, pid: int): (jid: int)
    ensures (pid < 1 || forall i :: 0 <= i < |s| ==> s[i].pid != pid) ==> jid == 0
    ensures forall i :: (0 <= i < |s| && s[i].pid == pid && pid >= 1 &&
                         forall j :: 0 <= j < i ==> s[j].pid != pid) ==> jid == s[i].jid
  {
    match JobWithPid(s, pid)
    case None => 0
    case Some(i) => s[i].jid
  }

  /** fgpid: the pid of the first slot in state FG, 0 if there is none. */
  function FgPid(s: seq<Job>): (pid: int)
    ensures (forall i :: 0 <= i < |s| ==> s[i].state != Foreground) ==> pid == 0
    ensures forall i :: (0 <= i < |s| && s[i].state == Foreground &&
                         forall j :: 0 <= j < i ==> s[j].state != Foreground) ==> pid == s[i].pid
  {
    match FirstWith(s, StateField, Foreground)
    case None => 0
    case Some(i) => s[i].pid
  }

  /** The id addjob moves the counter to after handing out `n`. */
  function NextJidAfter(n: int): (r: int)
    ensures n >= 0 ==> 1 <= r <= MaxJobs
  {
    if n + 1 > MaxJobs then 1 else n + 1
  }

  /**
   * addjob: a job with a pid below 1, or one that meets a full list, is
   * refused and nothing changes; otherwise it takes the lowest empty slot
   * with the current `nextjid` as its id, and the counter advances.
   */
  function Add(t: Table, pid: int, state: int, cmdline: string): (r: (Table, bool))
    ensures !r.1 <==> pid < 1 || forall i :: 0 <= i < |t.slots| ==> t.slots[i].pid != 0
    ensures !r.1 ==> r.0 == t
    ensures r.1 ==> exists i :: && 0 <= i < |t.slots| && t.slots[i].pid == 0
                                && (forall j :: 0 <= j < i ==> t.slots[j].pid != 0)
                                && r.0.slots == t.slots[i := Job(pid, t.nextjid, state, cmdline)]
    ensures r.1 ==> r.0.nextjid == NextJidAfter(t.nextjid)
  {
    if pid < 1 then (t, false)
    else match FreeSlot(t.slots)
      case None => (t, false)
      case Some(i) =>
        (Table(t.slots[i := Job(pid, t.nextjid, state, cmdline)], NextJidAfter(t.nextjid)), true)
  }

  /**
   * deletejob: the first slot holding `pid` is cleared and the counter is
   * reset to one past the largest jid left; a pid below 1 or a pid that is
   * not in the list changes nothing.
   */
  function Delete(t: Table, pid: int): (r: (Table, bool))
    ensures !r.1 <==> pid < 1 || forall i :: 0 <= i < |t.slots| ==> t.slots[i].pid != pid
    ensures !r.1 ==> r.0 == t
    ensures r.1 ==> exists i :: && 0 <= i < |t.slots| && t.slots[i].pid == pid
                                && (forall j :: 0 <= j < i ==> t.slots[j].pid != pid)
                                && r.0.slots == t.slots[i := Cleared]
    ensures r.1 ==> r.0.nextjid == MaxJid(r.0.slots) + 1
  {
    if pid < 1 then (t, false)
    else match FirstWith(t.slots, PidField, pid)
      case None => (t, false)
      case Some(i) =>
        var s := t.slots[i := Cleared];
        (Table(s, MaxJid(s) + 1), true)
  }

  /** The line addjob prints in verbose mode: printf("Added job [%d] %d %s\n", jid, pid, cmdline). */
  function AddedLine(jid: int, pid: int, cmdline: string): string {
    "Added job [" + Decimal(jid) + "] " + Decimal(pid) + " " + cmdline + "\n"
  }

  /** What addjob prints when every slot is taken. */
  const TooManyJobs: string := "Tried to create too many jobs\n"

  /** The text addjob prints: the refusal of a full list, or the verbose "Added job" line. */
  function AddMessage(t: Table, pid: int, cmdline: string, verbose: bool): string {
    if pid < 1 then []
    else match FreeSlot(t.slots)
      case None => TooManyJobs
      case Some(_) => if verbose then AddedLine(t.nextjid, pid, cmdline) else []
  }

  /** The word listjobs prints for a state; slot `i` appears only in the internal-error text. */
  function StateLabel(i: int, state: int): string {
    if state == Background then "Running "
    else if state == Foreground then "Foreground "
    else if state == Stopped then "Stopped "
    else "listjobs: Internal error: job[" + Decimal(i) + "].state=" + Decimal(state) + " "
  }

  /**
   * The line listjobs prints for slot `i`.  Nothing ends it but the command
   * line itself, which as read by the shell carries its own newline.
   */
  function JobLine(i: nat, j: Job): string {
    LineHead(j) + StateLabel(i, j.state) + j.cmdline
  }

  /** The first part of a listing line: `[jid] (pid) `. */
  function LineHead(j: Job): string {
    "[" + Decimal(j.jid) + "] (" + Decimal(j.pid) + ") "
  }

  /**
   * What a loop like listjobs' has printed after looking at slots 0 .. n-1,
   * when it prints `line(i, s[i])` for each occupied slot `i`.  The listing
   * lemmas below hold for every such `line`; listjobs itself uses JobLine.
   */
  function ListingUpTo(s: seq<Job>, n: nat, line: (nat, Job) -> string): string
    requires n <= |s|
  {
    if n == 0 then []
    else ListingUpTo(s, n - 1, line) + (if s[n - 1].pid != 0 then line(n - 1, s[n - 1]) else [])
  }

  /** listjobs: everything it prints. */
  function Listing(s: seq<Job>): string {
    ListingUpTo(s, |s|, JobLine)
  }

  /** The lines of the slots whose indices `idx` lists, in that order (an index past the end gives nothing). */
  function LinesOf(s: seq<Job>, idx: seq<nat>, line: (nat, Job) -> string): string {
    if idx == [] then []
    else
      var i := idx[|idx| - 1];
      LinesOf(s, idx[..|idx| - 1], line) + (if i < |s| then line(i, s[i]) else [])
  }

  predicate Increasing(idx: seq<nat>) {
    forall k, l :: 0 <= k < l < |idx| ==> idx[k] < idx[l]
  }

  /** Two increasing sequences with the same elements are the same sequence. */
  lemma {:induction false} IncreasingUnique(a: seq<nat>, b: seq<nat>)
    requires Increasing(a) && Increasing(b)
    requires forall x :: x in a <==> x in b
    ensures a == b
  {
    if a != [] {
      assert a[0] in b;
    }
    if b != [] {
      assert b[0] in a;
    }
    if a != [] && b != [] {
      var la :| 0 <= la < |a| && a[la] == b[0];
      var lb :| 0 <= lb < |b| && b[lb] == a[0];
      assert a[0] <= a[la] && b[0] <= b[lb];
      forall x ensures x in a[1..] <==> x in b[1..] {
        if x in a[1..] {
          var l :| 1 <= l < |a| && a[l] == x;
          assert a[0] < x;
          assert x in b;
          var m :| 0 <= m < |b| && b[m] == x;
          assert m != 0;
        }
        if x in b[1..] {
          var l :| 1 <= l < |b| && b[l] == x;
          assert b[0] < x;
          assert x in a;
          var m :| 0 <= m < |a| && a[m] == x;
          assert m != 0;
        }
      }
      IncreasingUnique(a[1..], b[1..]);
      assert a == [a[0]] + a[1..] && b == [b[0]] + b[1..];
    }
  }

  /** The indices of the occupied slots among 0 .. n-1, in increasing order. */
  function OccupiedUpTo(s: seq<Job>, n: nat): seq<nat>
    requires n <= |s|
  {
    if n == 0 then []
    else OccupiedUpTo(s, n - 1) + (if s[n - 1].pid != 0 then [n - 1] else [])
  }

  lemma {:induction false} OccupiedUpToSpec(s: seq<Job>, n: nat)
    requires n <= |s|
    ensures var idx := OccupiedUpTo(s, n);
      && Increasing(idx)
      && (forall k :: 0 <= k < |idx| ==> idx[k] < n)
      && (forall i :: 0 <= i < n ==> (i in idx <==> s[i].pid != 0))
  {
    if n > 0 {
      OccupiedUpToSpec(s, n - 1);
    }
  }

  lemma LinesOfSnoc(s: seq<Job>, idx: seq<nat>, i: nat, line: (nat, Job) -> string)
    requires i < |s|
    ensures LinesOf(s, idx + [i], line) == LinesOf(s, idx, line) + line(i, s[i])
  {
    assert (idx + [i])[..|idx|] == idx;
  }

  /** One more slot adds its line to the lines of the occupied slots exactly when it is occupied. */
  lemma LinesOfStep(s: seq<Job>, n: nat, line: (nat, Job) -> string)
    requires 0 < n <= |s|
    ensures LinesOf(s, OccupiedUpTo(s, n), line)
         == LinesOf(s, OccupiedUpTo(s, n - 1), line) + (if s[n - 1].pid != 0 then line(n - 1, s[n - 1]) else [])
  {
    var idx := OccupiedUpTo(s, n - 1);
    if s[n - 1].pid != 0 {
      assert OccupiedUpTo(s, n) == idx + [n - 1];
      LinesOfSnoc(s, idx, n - 1, line);
    } else {
      assert OccupiedUpTo(s, n) == idx + [];
      assert idx + [] == idx;
      assert LinesOf(s, idx, line) + [] == LinesOf(s, idx, line);
    }
  }

  lemma {:induction false} ListingUpToIsLines(s: seq<Job>, n: nat, line: (nat, Job) -> string)
    requires n <= |s|
    ensures ListingUpTo(s, n, line) == LinesOf(s, OccupiedUpTo(s, n), line)
  {
    if n > 0 {
      ListingUpToIsLines(s, n - 1, line);
      LinesOfStep(s, n, line);
    }
  }

  /**
   * listjobs prints one line per occupied slot, in slot order, and nothing
   * for an empty slot: its output is the lines of ANY increasing list of
   * exactly the occupied slots.
   */
  lemma ListingIsOccupiedLines(s: seq<Job>, idx: seq<nat>)
    requires Increasing(idx)
    requires forall k :: 0 <= k < |idx| ==> idx[k] < |s|
    requires forall i :: 0 <= i < |s| ==> (i in idx <==> s[i].pid != 0)
    ensures Listing(s) == LinesOf(s, idx, JobLine)
  {
    var occ := OccupiedUpTo(s, |s|);
    OccupiedUpToSpec(s, |s|);
    forall x ensures x in idx <==> x in occ {
      if x in idx {
        var k :| 0 <= k < |idx| && idx[k] == x;
      }
      if x in occ {
        var k :| 0 <= k < |occ| && occ[k] == x;
      }
    }
    IncreasingUnique(idx, occ);
    ListingUpToIsLines(s, |s|, JobLine);
  }

  /** The number of occupied slots among 0 .. n-1. */
  function CountUpTo(s: seq<Job>, n: nat): nat
    requires n <= |s|
  {
    if n == 0 then 0 else CountUpTo(s, n - 1) + (if s[n - 1].pid != 0 then 1 else 0)
  }

  function Count(s: seq<Job>): nat {
    CountUpTo(s, |s|)
  }

  lemma {:induction false} CountUpToBound(s: seq<Job>, n: nat)
    requires n <= |s|
    ensures CountUpTo(s, n) <= n
    ensures CountUpTo(s, n) == n <==> forall i :: 0 <= i < n ==> s[i].pid != 0
  {
    if n > 0 {
      CountUpToBound(s, n - 1);
    }
  }

  lemma {:induction false} CountUpToUpdate(s: seq<Job>, i: nat, x: Job, n: nat)
    requires i < |s| && n <= |s|
    ensures CountUpTo(s[i := x], n) + (if i < n && s[i].pid != 0 then 1 else 0)
         == CountUpTo(s, n) + (if i < n && x.pid != 0 then 1 else 0)
  {
    if n > 0 {
      CountUpToUpdate(s, i, x, n - 1);
    }
  }

  /** Replacing one slot changes the number of jobs by what leaves and what enters it. */
  lemma CountUpdate(s: seq<Job>, i: nat, x: Job)
    requires i < |s|
    ensures Count(s[i := x]) + (if s[i].pid != 0 then 1 else 0)
         == Count(s) + (if x.pid != 0 then 1 else 0)
  {
    CountUpToUpdate(s, i, x, |s|);
  }

  // ---------------------------------------------------------------------
  // Properties of the job-list routines
  // ---------------------------------------------------------------------

  /**
   * After initjobs every slot is empty: the list is consistent with any
   * positive `nextjid`, the largest jid is 0, there is no foreground job,
   * every lookup fails and the listing is empty.
   */
  lemma InitialLookupsFail()
    ensures var s := EmptySlots(MaxJobs);
      && (forall nextjid :: nextjid >= 1 ==> Consistent(Table(s, nextjid)))
      && MaxJid(s) == 0
      && FgPid(s) == 0
      && Count(s) == 0
      && Listing(s) == []
      && (forall pid :: JobWithPid(s, pid) == None && Pid2Jid(s, pid) == 0)
      && (forall jid :: JobWithJid(s, jid) == None)
  {
    var s := EmptySlots(MaxJobs);
    assert forall n: nat :: n <= |s| ==> ListingUpTo(s, n, JobLine) == [] && CountUpTo(s, n) == 0 by {
      forall n: nat | n <= |s| ensures ListingUpTo(s, n, JobLine) == [] && CountUpTo(s, n) == 0 {
        EmptyPrefix(s, n, JobLine);
      }
    }
  }

  lemma {:induction false} EmptyPrefix(s: seq<Job>, n: nat, line: (nat, Job) -> string)
    requires n <= |s|
    requires forall i :: 0 <= i < |s| ==> s[i].pid == 0
    ensures ListingUpTo(s, n, line) == [] && CountUpTo(s, n) == 0
  {
    if n > 0 {
      EmptyPrefix(s, n - 1, line);
    }
  }

  /** addjob of a positive pid when slot `i` is the first empty one. */
  lemma AddAt(t: Table, pid: int, state: int, cmdline: string, i: nat)
    requires pid >= 1 && i < |t.slots| && t.slots[i].pid == 0
    requires forall j :: 0 <= j < i ==> t.slots[j].pid != 0
    ensures Add(t, pid, state, cmdline)
         == (Table(t.slots[i := Job(pid, t.nextjid, state, cmdline)], NextJidAfter(t.nextjid)), true)
  {
    FirstWithIs(t.slots, PidField, 0, i);
  }

  /** What addjob prints for a positive pid: the verbose line when there is an empty slot, the refusal otherwise. */
  lemma AddMessageCases(t: Table, pid: int, cmdline: string, verbose: bool)
    requires pid >= 1
    ensures (exists i :: 0 <= i < |t.slots| && t.slots[i].pid == 0) ==>
      AddMessage(t, pid, cmdline, verbose)
        == if verbose then AddedLine(t.nextjid, pid, cmdline) else []
    ensures (forall i :: 0 <= i < |t.slots| ==> t.slots[i].pid != 0) ==>
      AddMessage(t, pid, cmdline, verbose) == TooManyJobs
  {
  }

  /** deletejob of a positive pid whose first slot is `i`, leaving the slots `w`. */
  lemma DeleteAt(t: Table, pid: int, i: nat, w: seq<Job>)
    requires pid >= 1 && i < |t.slots| && t.slots[i].pid == pid
    requires forall j :: 0 <= j < i ==> t.slots[j].pid != pid
    requires w == t.slots[i := Cleared]
    ensures Delete(t, pid) == (Table(w, MaxJid(w) + 1), true)
  {
    FirstWithIs(t.slots, PidField, pid, i);
  }

  /** addjob and deletejob keep the list consistent. */
  lemma AddKeepsConsistent(t: Table, pid: int, state: int, cmdline: string)
    requires Consistent(t)
    ensures Consistent(Add(t, pid, state, cmdline).0)
  {
  }

  lemma DeleteKeepsConsistent(t: Table, pid: int)
    requires Consistent(t)
    ensures Consistent(Delete(t, pid).0)
  {
  }

  /** addjob fails for a positive pid exactly when all sixteen slots hold jobs. */
  lemma AddFailsOnlyWhenFull(t: Table, pid: int, state: int, cmdline: string)
    requires pid >= 1
    ensures !Add(t, pid, state, cmdline).1 <==> Count(t.slots) == |t.slots|
  {
    CountUpToBound(t.slots, |t.slots|);
  }

  /** A successful addjob adds one job, a successful deletejob removes one; neither can pass sixteen. */
  lemma AddDeleteCount(t: Table, pid: int, state: int, cmdline: string)
    requires Consistent(t)
    ensures Add(t, pid, state, cmdline).1 ==> Count(Add(t, pid, state, cmdline).0.slots) == Count(t.slots) + 1
    ensures Delete(t, pid).1 ==> Count(Delete(t, pid).0.slots) + 1 == Count(t.slots)
    ensures Count(Add(t, pid, state, cmdline).0.slots) <= MaxJobs
  {
    var s := t.slots;
    if pid >= 1 {
      match FreeSlot(s) {
        case Some(i) => CountUpdate(s, i, Job(pid, t.nextjid, state, cmdline));
        case None =>
      }
      match FirstWith(s, PidField, pid) {
        case Some(i) => CountUpdate(s, i, Cleared);
        case None =>
      }
    }
    var r := Add(t, pid, state, cmdline).0;
    CountUpToBound(r.slots, |r.slots|);
  }

  /**
   * Adding a pid that is not yet in the list: the new job is what a lookup
   * of that pid finds, with the old `nextjid` as its id; lookups of any
   * other pid, and of any jid other than the old `nextjid`, find what they
   * found before.
   */
  lemma AddThenLookup(t: Table, pid: int, state: int, cmdline: string)
    requires Consistent(t)
    requires JobWithPid(t.slots, pid) == None
    requires Add(t, pid, state, cmdline).1
    ensures var s := Add(t, pid, state, cmdline).0.slots;
      && JobWithPid(s, pid) == FreeSlot(t.slots)
      && s[JobWithPid(s, pid).value] == Job(pid, t.nextjid, state, cmdline)
      && Pid2Jid(s, pid) == t.nextjid
      && (forall q :: q != pid ==> JobWithPid(s, q) == JobWithPid(t.slots, q))
      && (forall jid :: jid != t.nextjid ==> JobWithJid(s, jid) == JobWithJid(t.slots, jid))
  {
    var i := FreeSlot(t.slots).value;
    var s := Add(t, pid, state, cmdline).0.slots;
    FirstWithIs(s, PidField, pid, i);
    forall q | q != pid ensures JobWithPid(s, q) == JobWithPid(t.slots, q) {
      if q >= 1 {
        FirstWithUpdate(t.slots, PidField, q, i, Job(pid, t.nextjid, state, cmdline));
      }
    }
    forall jid | jid != t.nextjid ensures JobWithJid(s, jid) == JobWithJid(t.slots, jid) {
      if jid >= 1 {
        FirstWithUpdate(t.slots, JidField, jid, i, Job(pid, t.nextjid, state, cmdline));
      }
    }
  }

  /** The first `v` is at `i` when slot `i` holds `v` and no slot before it does. */
  lemma {:induction false} FirstWithIs(s: seq<Job>, f: Field, v: int, i: nat)
    requires i < |s| && Key(s[i], f) == v
    requires forall j :: 0 <= j < i ==> Key(s[j], f) != v
    ensures FirstWith(s, f, v) == Some(i)
  {
    if i > 0 {
      FirstWithIs(s[1..], f, v, i - 1);
    }
  }

  /** Two lists whose slots agree on whether field `f` is `v` have their first `v` in the same place. */
  lemma {:induction false} FirstWithSame(s: seq<Job>, s': seq<Job>, f: Field, v: int)
    requires |s| == |s'|
    requires forall j :: 0 <= j < |s| ==> (Key(s[j], f) == v <==> Key(s'[j], f) == v)
    ensures FirstWith(s, f, v) == FirstWith(s', f, v)
  {
    if |s| > 0 {
      FirstWithSame(s[1..], s'[1..], f, v);
    }
  }

  /** Overwriting a slot that neither held nor now holds `v` does not move the first `v`. */
  lemma FirstWithUpdate(s: seq<Job>, f: Field, v: int, i: nat, x: Job)
    requires i < |s| && Key(s[i], f) != v && Key(x, f) != v
    ensures FirstWith(s[i := x], f, v) == FirstWith(s, f, v)
  {
    FirstWithSame(s[i := x], s, f, v);
  }

  /**
   * deletejob undoes addjob of a pid that was not in the list: the slots are
   * as before, and the counter is one past the largest jid in them.
   */
  lemma DeleteUndoesAdd(t: Table, pid: int, state: int, cmdline: string)
    requires Consistent(t)
    requires JobWithPid(t.slots, pid) == None
    requires Add(t, pid, state, cmdline).1
    ensures Delete(Add(t, pid, state, cmdline).0, pid) == (Table(t.slots, MaxJid(t.slots) + 1), true)
  {
    var i := FreeSlot(t.slots).value;
    var x := Job(pid, t.nextjid, state, cmdline);
    var a := Add(t, pid, state, cmdline).0;
    assert a == Table(t.slots[i := x], NextJidAfter(t.nextjid)) by {
      AddAt(t, pid, state, cmdline, i);
    }
    assert t.slots[i] == Cleared && forall j :: 0 <= j < i ==> t.slots[j].pid != pid;
    DeleteRestores(t.slots, i, x, NextJidAfter(t.nextjid), a, pid);
  }

  /** Clearing again the slot a job was put in, when it is the first slot with that pid, restores the slots. */
  lemma DeleteRestores(u: seq<Job>, i: nat, x: Job, n: int, a: Table, pid: int)
    requires i < |u| && u[i] == Cleared && pid == x.pid && pid >= 1
    requires forall j :: 0 <= j < i ==> u[j].pid != pid
    requires a == Table(u[i := x], n)
    ensures Delete(a, pid) == (Table(u, MaxJid(u) + 1), true)
  {
    assert u[i := x][i := Cleared] == u;
    DeleteAt(a, pid, i, u);
  }

  /**
   * Deleting a pid that occurs in one slot only: afterwards no lookup finds
   * it; lookups of other pids, and of jids other than the deleted job's,
   * find what they found before.
   */
  lemma DeleteThenLookup(t: Table, pid: int)
    requires Consistent(t)
    requires JobWithPid(t.slots, pid).Some?
    requires forall i, j :: 0 <= i < j < |t.slots| && t.slots[i].pid == pid ==> t.slots[j].pid != pid
    ensures var s := Delete(t, pid).0.slots;
      && JobWithPid(s, pid) == None
      && Pid2Jid(s, pid) == 0
      && (forall q :: q != pid ==> JobWithPid(s, q) == JobWithPid(t.slots, q))
      && (forall jid :: jid != t.slots[JobWithPid(t.slots, pid).value].jid ==>
            JobWithJid(s, jid) == JobWithJid(t.slots, jid))
  {
    var i := JobWithPid(t.slots, pid).value;
    var s := Delete(t, pid).0.slots;
    assert s == t.slots[i := Cleared];
    forall q | q != pid ensures JobWithPid(s, q) == JobWithPid(t.slots, q) {
      if q >= 1 {
        FirstWithUpdate(t.slots, PidField, q, i, Cleared);
      }
    }
    forall jid | jid != t.slots[i].jid ensures JobWithJid(s, jid) == JobWithJid(t.slots, jid) {
      if jid >= 1 {
        FirstWithUpdate(t.slots, JidField, jid, i, Cleared);
      }
    }
  }

  /** In a consistent list, a job found by its jid is a real (occupied) job. */
  lemma JobWithJidIsOccupied(t: Table, jid: int)
    requires Consistent(t)
    ensures JobWithJid(t.slots, jid).Some? ==> t.slots[JobWithJid(t.slots, jid).value].pid >= 1
  {
  }
}
