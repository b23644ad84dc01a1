/** Deadlock freedom of the directory operations: threads that take the mount lock and the per-
    directory `entries` and `subdirs` spinlocks, each operation following its own lock program. */
module DirLocks {

  /** Directories are identified by their address, which is also what rename orders by. */
  datatype Lock = Mount | Entries(addr: nat) | Subdirs(addr: nat)

  datatype Event = Acquire(lock: Lock) | Release(lock: Lock)

  type Program = seq<Event>

  /** The acquisition order: mount, then entries by address, then subdirs by address. */
  predicate Before(a: Lock, b: Lock) {
    match (a, b)
    case (Mount, Entries(_)) => true
    case (Mount, Subdirs(_)) => true
    case (Entries(x), Entries(y)) => x < y
    case (Entries(_), Subdirs(_)) => true
    case (Subdirs(x), Subdirs(y)) => x < y
    case (_, _) => false
  }

  /** Locks held after the first `pc` events. */
  function Held(p: Program, pc: nat): (s: set<Lock>)
    requires pc <= |p|
  {
    if pc == 0 then {}
    else
      match p[pc - 1]
      case Acquire(l) => Held(p, pc - 1) + {l}
      case Release(l) => Held(p, pc - 1) - {l}
  }

  /** Event `pc` respects the discipline: it acquires above everything held, or releases a held lock. */
  ghost predicate EventOrdered(p: Program, pc: nat)
    requires pc < |p|
  {
    match p[pc]
    case Acquire(l) => forall h :: h in Held(p, pc) ==> Before(h, l)
    case Release(l) => l in Held(p, pc)
  }

  ghost predicate Ordered(p: Program) {
    (forall pc :: 0 <= pc < |p| ==> EventOrdered(p, pc)) && Held(p, |p|) == {}
  }

  // ----- the operations -----

  datatype Op =
    | LookupIn(d: nat)                      // also readdir and create_file
    | CreateDirIn(d: nat, present: bool)    // an existing name returns before subdirs is taken
    | UnlinkIn(d: nat, found: bool)
    | SubdirIn(d: nat)                      // get_or_create_subdir, same-directory rename
    | RenameAcross(self: nat, dest: nat)
    | ResolveThrough(dirs: seq<nat>)        // one lookup per component under the mount lock

  function One(l: Lock): (p: Program) {
    [Acquire(l), Release(l)]
  }

  function Nested(d: nat): (p: Program) {
    [Acquire(Entries(d)), Acquire(Subdirs(d)), Release(Subdirs(d)), Release(Entries(d))]
  }

  function Lookups(dirs: seq<nat>): (p: Program) {
    if dirs == [] then [] else Lookups(dirs[..|dirs| - 1]) + One(Entries(dirs[|dirs| - 1]))
  }

  /** The lock program of an operation. Cross-directory rename sorts the two parents by address. */
  function ProgramOf(op: Op): (p: Program) {
    match op
    case LookupIn(d) => One(Entries(d))
    case CreateDirIn(d, e) => if e then One(Entries(d)) else Nested(d)
    case UnlinkIn(d, f) => if f then Nested(d) else One(Entries(d))
    case SubdirIn(d) => Nested(d)
    case RenameAcross(self, dest) =>
      if self == dest then Nested(self)
      else
        var lo, hi := if self < dest then self else dest, if self < dest then dest else self;
        [Acquire(Entries(lo)), Acquire(Entries(hi)), Acquire(Subdirs(lo)), Acquire(Subdirs(hi)),
         Release(Subdirs(hi)), Release(Subdirs(lo)), Release(Entries(hi)), Release(Entries(lo))]
    case ResolveThrough(dirs) => [Acquire(Mount)] + Lookups(dirs) + [Release(Mount)]
  }

  lemma {:induction false} HeldPrefix(p: Program, q: Program, pc: nat)
    requires pc <= |p|
    ensures Held(p + q, pc) == Held(p, pc)
  {
    if pc > 0 {
      HeldPrefix(p, q, pc - 1);
    }
  }

  lemma OneOrdered(l: Lock)
    ensures Ordered(One(l))
  {
    var p := One(l);
    assert Held(p, 0) == {} && Held(p, 1) == {l} && Held(p, 2) == {};
    assert EventOrdered(p, 0) && EventOrdered(p, 1);
  }

  lemma NestedOrdered(d: nat)
    ensures Ordered(Nested(d))
  {
    var p := Nested(d);
    assert Held(p, 0) == {} && Held(p, 1) == {Entries(d)};
    assert Held(p, 2) == {Entries(d), Subdirs(d)};
    assert Held(p, 3) == {Entries(d)} && Held(p, 4) == {};
    assert EventOrdered(p, 0) && EventOrdered(p, 1) && EventOrdered(p, 2) && EventOrdered(p, 3);
  }

  lemma CrossOrdered(self: nat, dest: nat)
    requires self != dest
    ensures Ordered(ProgramOf(RenameAcross(self, dest)))
  {
    var p := ProgramOf(RenameAcross(self, dest));
    var lo, hi := if self < dest then self else dest, if self < dest then dest else self;
    assert Held(p, 0) == {} && Held(p, 1) == {Entries(lo)};
    assert Held(p, 2) == {Entries(lo), Entries(hi)};
    assert Held(p, 3) == {Entries(lo), Entries(hi), Subdirs(lo)};
    assert Held(p, 4) == {Entries(lo), Entries(hi), Subdirs(lo), Subdirs(hi)};
    assert Held(p, 5) == {Entries(lo), Entries(hi), Subdirs(lo)};
    assert Held(p, 6) == {Entries(lo), Entries(hi)};
    assert Held(p, 7) == {Entries(lo)} && Held(p, 8) == {};
    assert EventOrdered(p, 0) && EventOrdered(p, 1) && EventOrdered(p, 2) && EventOrdered(p, 3);
    assert EventOrdered(p, 4) && EventOrdered(p, 5) && EventOrdered(p, 6) && EventOrdered(p, 7);
  }

  /** Below the mount lock, each component's entries lock is taken and dropped in turn. */
  lemma {:induction false} LookupsOrdered(dirs: seq<nat>)
    ensures var p := [Acquire(Mount)] + Lookups(dirs);
            Held(p, |p|) == {Mount} && forall pc :: 0 <= pc < |p| ==> EventOrdered(p, pc)
  {
    var p := [Acquire(Mount)] + Lookups(dirs);
    if dirs == [] {
      assert p == [Acquire(Mount)];
      assert Held(p, 0) == {} && Held(p, 1) == {Mount};
      assert EventOrdered(p, 0);
    } else {
      var front := dirs[..|dirs| - 1];
      var last := Entries(dirs[|dirs| - 1]);
      LookupsOrdered(front);
      var q := [Acquire(Mount)] + Lookups(front);
      assert p == q + One(last);
      HeldPrefix(q, One(last), |q|);
      assert Held(p, |q| + 1) == {Mount, last};
      assert Held(p, |q| + 2) == {Mount};
      forall pc | 0 <= pc < |p|
        ensures EventOrdered(p, pc)
      {
        if pc < |q| {
          HeldPrefix(q, One(last), pc);
          assert EventOrdered(q, pc);
        }
      }
    }
  }

  /** Every operation takes its locks in strictly increasing order and ends holding none. */
  lemma ProgramsOrdered(op: Op)
    ensures Ordered(ProgramOf(op))
  {
    match op
    case LookupIn(d) => OneOrdered(Entries(d));
    case CreateDirIn(d, _) => OneOrdered(Entries(d)); NestedOrdered(d);
    case UnlinkIn(d, _) => OneOrdered(Entries(d)); NestedOrdered(d);
    case SubdirIn(d) => NestedOrdered(d);
    case RenameAcross(self, dest) =>
      if self == dest { NestedOrdered(self); } else { CrossOrdered(self, dest); }
    case ResolveThrough(dirs) =>
      LookupsOrdered(dirs);
      var q := [Acquire(Mount)] + Lookups(dirs);
      var p := ProgramOf(op);
      assert p == q + [Release(Mount)];
      HeldPrefix(q, [Release(Mount)], |q|);
      forall pc | 0 <= pc < |p|
        ensures EventOrdered(p, pc)
      {
        if pc < |q| {
          HeldPrefix(q, [Release(Mount)], pc);
          assert EventOrdered(q, pc);
        }
      }
  }

  /** The locks of the maps that an operation reads or changes. */
  ghost function Touches(op: Op): (s: set<Lock>) {
    match op
    case LookupIn(d) => {Entries(d)}
    case CreateDirIn(d, present) => if present then {Entries(d)} else {Entries(d), Subdirs(d)}
    case UnlinkIn(d, found) => if found then {Entries(d), Subdirs(d)} else {Entries(d)}
    case SubdirIn(d) => {Entries(d), Subdirs(d)}
    case RenameAcross(self, dest) => {Entries(self), Subdirs(self), Entries(dest), Subdirs(dest)}
    case ResolveThrough(dirs) => {}
  }

  /** The first `pc` events are acquisitions, the others releases. */
  ghost predicate TwoPhase(p: Program, pc: nat) {
    pc <= |p| && forall i :: 0 <= i < |p| ==> (p[i].Acquire? <==> i < pc)
  }

  /** At some moment exactly these locks are held. */
  ghost predicate HoldsOnce(p: Program, s: set<Lock>) {
    exists pc :: 0 <= pc <= |p| && Held(p, pc) == s
  }

  /** At some moment exactly these locks are held, and nothing was released before or taken after. */
  ghost predicate HoldsAtOnce(p: Program, s: set<Lock>) {
    exists pc :: 0 <= pc <= |p| && TwoPhase(p, pc) && Held(p, pc) == s
  }

  /** Every operation on directories holds the locks of all it touches at one moment, takes no others,
      and releases none before that moment, so it is atomic. Path resolution holds the mount lock
      and the lock of each directory when its turn comes. */
  lemma ProgramsProtect(op: Op)
    ensures !op.ResolveThrough? ==> HoldsAtOnce(ProgramOf(op), Touches(op))
    ensures op.ResolveThrough? ==>
            forall k :: 0 <= k < |op.dirs| ==> HoldsOnce(ProgramOf(op), {Mount, Entries(op.dirs[k])})
  {
    if op.ResolveThrough? {
      forall k | 0 <= k < |op.dirs|
        ensures HoldsOnce(ProgramOf(op), {Mount, Entries(op.dirs[k])})
      {
        var pc := LookupHolds(op.dirs, k);
        var q := [Acquire(Mount)] + Lookups(op.dirs);
        HeldPrefix(q, [Release(Mount)], pc);
        assert ProgramOf(op) == q + [Release(Mount)];
      }
    } else {
      OperationProtects(op);
    }
  }

  lemma OperationProtects(op: Op)
    requires !op.ResolveThrough?
    ensures HoldsAtOnce(ProgramOf(op), Touches(op))
  {
    var p := ProgramOf(op);
    if op.RenameAcross? && op.self != op.dest {
      CrossHeld(op.self, op.dest);
      assert TwoPhase(p, 4) && Held(p, 4) == Touches(op);
    } else if |p| == 2 {
      assert Held(p, 1) == Held(p, 0) + {p[0].lock};
      assert TwoPhase(p, 1) && Held(p, 1) == Touches(op);
    } else {
      assert Held(p, 1) == Held(p, 0) + {p[0].lock} && Held(p, 2) == Held(p, 1) + {p[1].lock};
      assert TwoPhase(p, 2) && Held(p, 2) == Touches(op);
    }
  }

  lemma CrossHeld(self: nat, dest: nat)
    requires self != dest
    ensures Held(ProgramOf(RenameAcross(self, dest)), 4) == Touches(RenameAcross(self, dest))
  {
    var p := ProgramOf(RenameAcross(self, dest));
    var lo, hi := if self < dest then self else dest, if self < dest then dest else self;
    assert Held(p, 0) == {} && Held(p, 1) == {Entries(lo)};
    assert Held(p, 2) == {Entries(lo), Entries(hi)};
    assert Held(p, 3) == {Entries(lo), Entries(hi), Subdirs(lo)};
    assert Held(p, 4) == {Entries(lo), Entries(hi), Subdirs(lo), Subdirs(hi)};
  }

  lemma {:induction false} LookupHolds(dirs: seq<nat>, k: nat) returns (pc: nat)
    requires k < |dirs|
    ensures var p := [Acquire(Mount)] + Lookups(dirs); pc <= |p| && Held(p, pc) == {Mount, Entries(dirs[k])}
  {
    var front := dirs[..|dirs| - 1];
    var q := [Acquire(Mount)] + Lookups(front);
    var last := Entries(dirs[|dirs| - 1]);
    var p := [Acquire(Mount)] + Lookups(dirs);
    assert p == q + One(last);
    if k == |dirs| - 1 {
      LookupsOrdered(front);
      HeldPrefix(q, One(last), |q|);
      pc := |q| + 1;
      assert Held(p, pc) == Held(p, |q|) + {last};
    } else {
      pc := LookupHolds(front, k);
      HeldPrefix(q, One(last), pc);
    }
  }

  // ----- threads -----

  /** A thread part-way through an operation; events before `pc` have happened. */
  datatype Thread = Thread(op: Op, pc: nat)

  type System = seq<Thread>

  ghost predicate Wf(s: System) {
    forall i :: 0 <= i < |s| ==> s[i].pc <= |ProgramOf(s[i].op)|
  }

  ghost predicate Unfinished(s: System, i: nat)
    requires i < |s|
  {
    s[i].pc < |ProgramOf(s[i].op)|
  }

  ghost predicate Holds(s: System, i: nat, l: Lock)
    requires Wf(s) && i < |s|
  {
    l in Held(ProgramOf(s[i].op), s[i].pc)
  }

  ghost predicate Wants(s: System, i: nat, l: Lock)
    requires i < |s|
  {
    Unfinished(s, i) && ProgramOf(s[i].op)[s[i].pc] == Acquire(l)
  }

  /** A spinlock can be acquired only while nobody holds it; a release is always possible. */
  ghost predicate CanStep(s: System, i: nat)
    requires Wf(s) && i < |s|
  {
    && Unfinished(s, i)
    && forall j, l :: 0 <= j < |s| && Wants(s, i, l) ==> !Holds(s, j, l)
  }

  function Stepped(s: System, i: nat): (r: System)
    requires i < |s|
  {
    s[i := s[i].(pc := s[i].pc + 1)]
  }

  ghost predicate Exclusive(s: System)
    requires Wf(s)
  {
    forall i, j, l :: 0 <= i < j < |s| && Holds(s, i, l) ==> !Holds(s, j, l)
  }

  /** `s` is reached from all threads standing at the start of their operations. */
  ghost predicate Reachable(s: System, schedule: seq<nat>, ops: seq<Op>)
    decreases |schedule|
  {
    if schedule == [] then |s| == |ops| && forall i :: 0 <= i < |s| ==> s[i] == Thread(ops[i], 0)
    else
      var last := schedule[|schedule| - 1];
      exists s0 :: Reachable(s0, schedule[..|schedule| - 1], ops) && Wf(s0) && last < |s0| && CanStep(s0, last)
        && s == Stepped(s0, last)
  }

  lemma StepExclusive(s: System, i: nat)
    requires Wf(s) && Exclusive(s) && i < |s| && CanStep(s, i)
    ensures Wf(Stepped(s, i)) && Exclusive(Stepped(s, i))
  {
    var s' := Stepped(s, i);
    forall k, l | 0 <= k < |s'| && Holds(s', k, l)
      ensures Holds(s, k, l) || (k == i && Wants(s, i, l))
    {
    }
  }

  /** Mutual exclusion in every reachable state. */
  lemma {:induction false} ReachableExclusive(s: System, schedule: seq<nat>, ops: seq<Op>)
    requires Reachable(s, schedule, ops)
    ensures Wf(s) && Exclusive(s)
    decreases |schedule|
  {
    if schedule != [] {
      var last := schedule[|schedule| - 1];
      var s0 :| Reachable(s0, schedule[..|schedule| - 1], ops) && Wf(s0) && last < |s0| && CanStep(s0, last)
        && s == Stepped(s0, last);
      ReachableExclusive(s0, schedule[..|schedule| - 1], ops);
      StepExclusive(s0, last);
    }
  }

  ghost predicate WaitsAbove(s: System, i: nat, l: Lock)
    requires i < |s|
  {
    exists m :: Wants(s, i, m) && Before(l, m)
  }

  /** Threads that wait for a lock above `l`. */
  ghost function Above(s: System, l: Lock): (r: set<nat>) {
    set i: nat | i < |s| && WaitsAbove(s, i, l)
  }

  /** Following a blocked thread to the holder of the lock it wants climbs the lock order, so it
      ends at a thread that can step. */
  lemma {:induction false} ClimbToRunnable(s: System, i: nat) returns (j: nat)
    requires Wf(s) && i < |s| && Unfinished(s, i)
    ensures j < |s| && CanStep(s, j)
    decreases match ProgramOf(s[i].op)[s[i].pc] case Acquire(l) => 1 case Release(_) => 0,
              match ProgramOf(s[i].op)[s[i].pc] case Acquire(l) => Above(s, l) case Release(_) => {}
  {
    var p := ProgramOf(s[i].op);
    ProgramsOrdered(s[i].op);
    assert EventOrdered(p, s[i].pc);
    if CanStep(s, i) {
      return i;
    }
    var h, l :| 0 <= h < |s| && Wants(s, i, l) && Holds(s, h, l);
    var q := ProgramOf(s[h].op);
    ProgramsOrdered(s[h].op);
    assert Unfinished(s, h);
    assert EventOrdered(q, s[h].pc);
    match q[s[h].pc] {
      case Release(_) =>
      case Acquire(m) =>
        assert Wants(s, h, m) && Before(l, m);
        assert h in Above(s, l) && h !in Above(s, m);
        assert Above(s, m) <= Above(s, l);
    }
    j := ClimbToRunnable(s, h);
  }

  /** Deadlock freedom: in every reachable state with an unfinished operation, for any number of
      threads and directories, some thread can take its next step. */
  lemma DeadlockFree(s: System, schedule: seq<nat>, ops: seq<Op>)
    requires Reachable(s, schedule, ops)
    ensures (exists i: nat :: i < |s| && Unfinished(s, i)) ==> Wf(s) && exists j: nat :: j < |s| && CanStep(s, j)
  {
    ReachableExclusive(s, schedule, ops);
    if i: nat :| i < |s| && Unfinished(s, i) {
      var j := ClimbToRunnable(s, i);
    }
  }

  /** Events done so far by all threads. */
  function Done(s: System): (n: nat) {
    if s == [] then 0 else Done(s[..|s| - 1]) + s[|s| - 1].pc
  }

  lemma {:induction false} SteppedDone(s: System, i: nat)
    requires i < |s|
    ensures Done(Stepped(s, i)) == Done(s) + 1
  {
    var n := |s| - 1;
    if i < n {
      assert Stepped(s, i)[..n] == Stepped(s[..n], i);
      SteppedDone(s[..n], i);
    } else {
      assert Stepped(s, i)[..n] == s[..n];
    }
  }

  function Total(ops: seq<Op>): (n: nat) {
    if ops == [] then 0 else Total(ops[..|ops| - 1]) + |ProgramOf(ops[|ops| - 1])|
  }

  lemma {:induction false} DoneBounded(s: System, ops: seq<Op>)
    requires Wf(s) && |s| == |ops| && forall i :: 0 <= i < |s| ==> s[i].op == ops[i]
    ensures Done(s) <= Total(ops)
  {
    if s != [] {
      DoneBounded(s[..|s| - 1], ops[..|ops| - 1]);
    }
  }

  lemma {:induction false} StartDone(s: System)
    requires forall i :: 0 <= i < |s| ==> s[i].pc == 0
    ensures Done(s) == 0
  {
    if s != [] { StartDone(s[..|s| - 1]); }
  }

  lemma {:induction false} RunLength(s: System, schedule: seq<nat>, ops: seq<Op>)
    requires Reachable(s, schedule, ops)
    ensures Wf(s) && |s| == |ops| && (forall i :: 0 <= i < |s| ==> s[i].op == ops[i])
    ensures |schedule| == Done(s)
    decreases |schedule|
  {
    if schedule == [] {
      StartDone(s);
    } else {
      var last := schedule[|schedule| - 1];
      var s0 :| Reachable(s0, schedule[..|schedule| - 1], ops) && Wf(s0) && last < |s0| && CanStep(s0, last)
        && s == Stepped(s0, last);
      RunLength(s0, schedule[..|schedule| - 1], ops);
      SteppedDone(s0, last);
    }
  }

  /** No run takes more steps than the operations' programs have events, and a run that cannot be
      extended has finished every operation. */
  lemma RunsComplete(s: System, schedule: seq<nat>, ops: seq<Op>)
    requires Reachable(s, schedule, ops)
    ensures |schedule| <= Total(ops) && Wf(s)
    ensures (forall i: nat :: i < |s| ==> !CanStep(s, i)) ==> forall i: nat :: i < |s| ==> !Unfinished(s, i)
  {
    RunLength(s, schedule, ops);
    DoneBounded(s, ops);
    DeadlockFree(s, schedule, ops);
  }
}
