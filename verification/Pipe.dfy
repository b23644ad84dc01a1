/** Anonymous pipes: a ring of bytes with two queues of waiting tasks, over any interleaving of reads,
    writes, closes and interrupted waits. */
module Pipe {

  const CAPACITY := 4096

  type Pid = int

  /** A pipe as its users see it. */
  datatype PipeState = PipeState(contents: seq<bv8>, readersOpen: nat, writersOpen: nat, readWaiters: seq<Pid>,
    writeWaiters: seq<Pid>)

  const NEW_PIPE := PipeState([], 1, 1, [], [])

  // ----- wait queues -----

  function AddWaiter(q: seq<Pid>, pid: Pid): (r: seq<Pid>) {
    if pid in q then q else q + [pid]
  }

  function RemoveWaiter(q: seq<Pid>, pid: Pid): (r: seq<Pid>) {
    if q == [] then []
    else
      var r := RemoveWaiter(q[..|q| - 1], pid);
      if q[|q| - 1] == pid then r else r + [q[|q| - 1]]
  }

  lemma {:induction false} RemoveWaiterExact(q: seq<Pid>, pid: Pid)
    ensures forall p :: p in RemoveWaiter(q, pid) <==> p in q && p != pid
  {
    if q != [] {
      RemoveWaiterExact(q[..|q| - 1], pid);
      assert q == q[..|q| - 1] + [q[|q| - 1]];
    }
  }

  // ----- the sections under the pipe lock -----

  /** How a section ends for its caller. */
  datatype Outcome = Got(bytes: seq<bv8>) | Put(count: nat) | Again | Wait | BrokenPipe | Closed

  /** New state, outcome, and the tasks to wake once the lock is dropped. */
  datatype Effect = Effect(s: PipeState, out: Outcome, woken: seq<Pid>)

  function Min(a: nat, b: nat): (m: nat) {
    if a < b then a else b
  }

  function Head(q: seq<Pid>): (r: seq<Pid>) {
    if q == [] then [] else [q[0]]
  }

  function Tail(q: seq<Pid>): (r: seq<Pid>) {
    if q == [] then [] else q[1..]
  }

  /** One attempt to read up to `n` bytes. End of file is a read of nothing. */
  function Read(s: PipeState, pid: Pid, n: nat, nonblock: bool): (e: Effect) {
    if s.contents == [] then
      if s.writersOpen == 0 then Effect(s, Got([]), [])
      else if nonblock then Effect(s, Again, [])
      else Effect(s.(readWaiters := AddWaiter(s.readWaiters, pid)), Wait, [])
    else
      var k := Min(n, |s.contents|);
      var s1 := s.(contents := s.contents[k..]);
      if |s.contents| == CAPACITY && k > 0
      then Effect(s1.(writeWaiters := Tail(s.writeWaiters)), Got(s.contents[..k]), Head(s.writeWaiters))
      else Effect(s1, Got(s.contents[..k]), [])
  }

  /** One attempt to write. */
  function Write(s: PipeState, pid: Pid, bytes: seq<bv8>, nonblock: bool): (e: Effect)
    requires |s.contents| <= CAPACITY
  {
    if s.readersOpen == 0 then Effect(s, BrokenPipe, [])
    else if |s.contents| == CAPACITY then
      if nonblock then Effect(s, Again, [])
      else Effect(s.(writeWaiters := AddWaiter(s.writeWaiters, pid)), Wait, [])
    else
      var k := Min(|bytes|, CAPACITY - |s.contents|);
      var s1 := s.(contents := s.contents + bytes[..k]);
      if s.contents == [] && k > 0
      then Effect(s1.(readWaiters := []), Put(k), s.readWaiters)
      else Effect(s1, Put(k), [])
  }

  function Drop(n: nat): (r: nat) {
    if n == 0 then 0 else n - 1
  }

  function CloseReader(s: PipeState): (e: Effect) {
    var s1 := s.(readersOpen := Drop(s.readersOpen));
    if s1.readersOpen == 0 then Effect(s1.(writeWaiters := []), Closed, s.writeWaiters) else Effect(s1, Closed, [])
  }

  function CloseWriter(s: PipeState): (e: Effect) {
    var s1 := s.(writersOpen := Drop(s.writersOpen));
    if s1.writersOpen == 0 then Effect(s1.(readWaiters := []), Closed, s.readWaiters) else Effect(s1, Closed, [])
  }

  datatype Op =
    | ReadOp(pid: Pid, n: nat, nonblock: bool)
    | WriteOp(pid: Pid, bytes: seq<bv8>, nonblock: bool)
    | CloseReaderOp
    | CloseWriterOp
    | InterruptReader(pid: Pid)
    | InterruptWriter(pid: Pid)

  function Step(s: PipeState, op: Op): (e: Effect)
    requires |s.contents| <= CAPACITY
  {
    match op
    case ReadOp(pid, n, nb) => Read(s, pid, n, nb)
    case WriteOp(pid, bytes, nb) => Write(s, pid, bytes, nb)
    case CloseReaderOp => CloseReader(s)
    case CloseWriterOp => CloseWriter(s)
    case InterruptReader(pid) => Effect(s.(readWaiters := RemoveWaiter(s.readWaiters, pid)), Again, [])
    case InterruptWriter(pid) => Effect(s.(writeWaiters := RemoveWaiter(s.writeWaiters, pid)), Again, [])
  }

  // ----- runs -----

  /** Readers wait only on an empty pipe that still has a writer. */
  ghost predicate ReadersWait(s: PipeState) {
    s.readWaiters != [] ==> s.contents == [] && s.writersOpen > 0
  }

  ghost predicate Inv(s: PipeState) {
    |s.contents| <= CAPACITY && ReadersWait(s)
  }

  /** Each step keeps the readers' invariant, and whenever it leaves data or end of file behind, it
      hands over every reader that was waiting. */
  lemma StepKeeps(s: PipeState, op: Op)
    requires Inv(s)
    ensures var e := Step(s, op);
            && Inv(e.s)
            && (e.s.contents != [] || e.s.writersOpen == 0 ==>
                  forall p :: p in s.readWaiters ==> p in e.woken || op == InterruptReader(p))
  {
    match op
    case InterruptReader(pid) => RemoveWaiterExact(s.readWaiters, pid);
    case InterruptWriter(pid) =>
    case ReadOp(_, _, _) =>
    case WriteOp(_, _, _) =>
    case CloseReaderOp =>
    case CloseWriterOp =>
  }

  function Taken(out: Outcome): (b: seq<bv8>) {
    if out.Got? then out.bytes else []
  }

  function Given(op: Op, out: Outcome): (b: seq<bv8>) {
    if op.WriteOp? && out.Put? && out.count <= |op.bytes| then op.bytes[..out.count] else []
  }

  /** A step moves bytes from the front to the reader and from the writer to the back. */
  lemma StepConserves(s: PipeState, op: Op)
    requires Inv(s)
    ensures var e := Step(s, op); Taken(e.out) + e.s.contents == s.contents + Given(op, e.out)
  {
    hide AddWaiter, RemoveWaiter, Head, Tail, Drop;
  }

  ghost predicate Run(h: seq<PipeState>, ops: seq<Op>) {
    && |h| == |ops| + 1
    && forall i :: 0 <= i < |ops| ==> |h[i].contents| <= CAPACITY && h[i + 1] == Step(h[i], ops[i]).s
  }

  /** All bytes read, and all bytes accepted for writing, in the first `n` steps. */
  ghost function ReadSoFar(h: seq<PipeState>, ops: seq<Op>, n: nat): (b: seq<bv8>)
    requires Run(h, ops) && n <= |ops|
  {
    if n == 0 then [] else ReadSoFar(h, ops, n - 1) + Taken(Step(h[n - 1], ops[n - 1]).out)
  }

  ghost function WrittenSoFar(h: seq<PipeState>, ops: seq<Op>, n: nat): (b: seq<bv8>)
    requires Run(h, ops) && n <= |ops|
  {
    if n == 0 then [] else WrittenSoFar(h, ops, n - 1) + Given(ops[n - 1], Step(h[n - 1], ops[n - 1]).out)
  }

  /** Over every run, what was read followed by what is in the pipe is what was written, in order,
      and readers wait only where they must. */
  lemma {:induction false} RunConserves(h: seq<PipeState>, ops: seq<Op>, n: nat)
    requires Run(h, ops) && n <= |ops| && Inv(h[0])
    ensures Inv(h[n]) && ReadSoFar(h, ops, n) + h[n].contents == h[0].contents + WrittenSoFar(h, ops, n)
  {
    hide Inv, Step, Taken, Given;
    if n == 0 {
    } else {
      RunConserves(h, ops, n - 1);
      StepKeeps(h[n - 1], ops[n - 1]);
      StepConserves(h[n - 1], ops[n - 1]);
      var e := Step(h[n - 1], ops[n - 1]);
      var r, w := ReadSoFar(h, ops, n - 1), WrittenSoFar(h, ops, n - 1);
      calc {
        (r + Taken(e.out)) + e.s.contents;
        r + (Taken(e.out) + e.s.contents);
        r + (h[n - 1].contents + Given(ops[n - 1], e.out));
        (r + h[n - 1].contents) + Given(ops[n - 1], e.out);
        h[0].contents + (w + Given(ops[n - 1], e.out));
      }
    }
  }

  // ----- writers -----

  /** The mirror image for writers. */
  ghost predicate WritersWait(s: PipeState) {
    s.writeWaiters != [] ==> |s.contents| == CAPACITY && s.readersOpen > 0
  }

  lemma {:induction false} RemovedEmpty(q: seq<Pid>, pid: Pid)
    ensures q == [] ==> RemoveWaiter(q, pid) == []
  {
  }

  /** Writers are woken one at a time, so a step keeps the mirror image exactly unless it reads from
      a full pipe on which two or more writers wait. */
  lemma WritersKeptIff(s: PipeState, op: Op)
    requires Inv(s) && WritersWait(s)
    ensures WritersWait(Step(s, op).s) <==>
      !(op.ReadOp? && op.n > 0 && |s.contents| == CAPACITY && |s.writeWaiters| >= 2)
  {
    if op.InterruptWriter? { RemovedEmpty(s.writeWaiters, op.pid); }
  }

  /** A run that leaves a writer waiting on an empty pipe: one writer fills it, two more wait, and a
      reader takes everything. */
  lemma WriterLeftWaiting(page: seq<bv8>)
    requires |page| == CAPACITY
    ensures var s1 := Step(NEW_PIPE, WriteOp(1, page, false)).s;
            && |s1.contents| <= CAPACITY
            && var s2 := Step(s1, WriteOp(2, [0], false)).s;
            && |s2.contents| <= CAPACITY
            && var s3 := Step(s2, WriteOp(3, [0], false)).s;
            && |s3.contents| <= CAPACITY
            && var e := Step(s3, ReadOp(4, CAPACITY, false));
            && e.woken == [2] && e.s.writeWaiters == [3] && e.s.contents == [] && !WritersWait(e.s)
  {
    var s1 := Step(NEW_PIPE, WriteOp(1, page, false)).s;
    assert page[..CAPACITY] == page && [] + page == page;
    assert s1 == NEW_PIPE.(contents := page);
    var s2 := Step(s1, WriteOp(2, [0], false)).s;
    assert s2 == s1.(writeWaiters := [2]);
    var s3 := Step(s2, WriteOp(3, [0], false)).s;
    assert s3 == s1.(writeWaiters := [2, 3]);
  }

  // ----- what each section must do -----

  /** A waiter joins the back of its queue, once. */
  ghost predicate Joined(q: seq<Pid>, q': seq<Pid>, pid: Pid) {
    pid in q' && q <= q' && |q'| <= |q| + 1 && (pid in q ==> q' == q)
  }

  /** A waiter leaves its queue, and the others stay in order. */
  ghost predicate Left(q: seq<Pid>, q': seq<Pid>, pid: Pid) {
    && (pid !in q ==> q' == q)
    && forall i :: 0 <= i < |q| && q[i] == pid ==> q' == q[..i] + q[i + 1..]
  }

  /** A read: data or end of file at once, otherwise EAGAIN or a wait; what is handed out and what stays
      make up the old contents; and only a read that makes room in a full pipe wakes a writer, the first. */
  ghost predicate ReadMeets(s: PipeState, pid: Pid, n: nat, nonblock: bool, e: Effect) {
    && (e.out.Got? <==> s.contents != [] || s.writersOpen == 0)
    && (e.out == Again <==> s.contents == [] && s.writersOpen > 0 && nonblock)
    && (e.out == Wait <==> s.contents == [] && s.writersOpen > 0 && !nonblock)
    && Taken(e.out) + e.s.contents == s.contents && (e.out.Got? ==> |e.out.bytes| == Min(n, |s.contents|))
    && (if e.out == Wait then Joined(s.readWaiters, e.s.readWaiters, pid) else e.s.readWaiters == s.readWaiters)
    && e.woken + e.s.writeWaiters == s.writeWaiters
    && |e.woken| == (if |s.contents| == CAPACITY && n > 0 && s.writeWaiters != [] then 1 else 0)
    && e.s.readersOpen == s.readersOpen && e.s.writersOpen == s.writersOpen
  }

  /** A write: EPIPE without a reader, EAGAIN or a wait when there is no room, otherwise as much as fits is
      appended; and the write that puts data into an empty pipe wakes every reader. */
  ghost predicate WriteMeets(s: PipeState, pid: Pid, bytes: seq<bv8>, nonblock: bool, e: Effect)
    requires |s.contents| <= CAPACITY
  {
    && (e.out == BrokenPipe <==> s.readersOpen == 0)
    && (e.out == Again <==> s.readersOpen > 0 && |s.contents| == CAPACITY && nonblock)
    && (e.out == Wait <==> s.readersOpen > 0 && |s.contents| == CAPACITY && !nonblock)
    && (e.out.Put? <==> s.readersOpen > 0 && |s.contents| < CAPACITY)
    && (if e.out.Put? then e.out.count == Min(|bytes|, CAPACITY - |s.contents|) &&
                           e.s.contents == s.contents + bytes[..e.out.count]
        else e.s.contents == s.contents)
    && (if e.out == Wait then Joined(s.writeWaiters, e.s.writeWaiters, pid) else e.s.writeWaiters == s.writeWaiters)
    && (if s.contents == [] && e.s.contents != [] then e.woken == s.readWaiters && e.s.readWaiters == []
        else e.woken == [] && e.s.readWaiters == s.readWaiters)
    && e.s.readersOpen == s.readersOpen && e.s.writersOpen == s.writersOpen
  }

  /** An end is given up, never below none; the last one lets everybody waiting at the other end go. */
  ghost predicate CloseMeets(ends: nat, ends': nat, waiters: seq<Pid>, waiters': seq<Pid>, woken: seq<Pid>) {
    && (ends > 0 ==> ends' == ends - 1) && (ends == 0 ==> ends' == 0)
    && (ends <= 1 ==> woken == waiters && waiters' == []) && (ends > 1 ==> woken == [] && waiters' == waiters)
  }

  ghost predicate Meets(s: PipeState, op: Op, e: Effect)
    requires |s.contents| <= CAPACITY
  {
    match op
    case ReadOp(pid, n, nonblock) => ReadMeets(s, pid, n, nonblock, e)
    case WriteOp(pid, bytes, nonblock) => WriteMeets(s, pid, bytes, nonblock, e)
    case CloseReaderOp =>
      && CloseMeets(s.readersOpen, e.s.readersOpen, s.writeWaiters, e.s.writeWaiters, e.woken) && e.out == Closed
      && e.s == s.(readersOpen := e.s.readersOpen, writeWaiters := e.s.writeWaiters)
    case CloseWriterOp =>
      && CloseMeets(s.writersOpen, e.s.writersOpen, s.readWaiters, e.s.readWaiters, e.woken) && e.out == Closed
      && e.s == s.(writersOpen := e.s.writersOpen, readWaiters := e.s.readWaiters)
    case InterruptReader(pid) =>
      && Left(s.readWaiters, e.s.readWaiters, pid) && e.s == s.(readWaiters := e.s.readWaiters)
      && e.out == Again && e.woken == []
    case InterruptWriter(pid) =>
      && Left(s.writeWaiters, e.s.writeWaiters, pid) && e.s == s.(writeWaiters := e.s.writeWaiters)
      && e.out == Again && e.woken == []
  }

  ghost predicate Distinct(q: seq<Pid>) {
    forall i, j :: 0 <= i < j < |q| ==> q[i] != q[j]
  }

  ghost predicate WaitersDistinct(s: PipeState) {
    Distinct(s.readWaiters) && Distinct(s.writeWaiters)
  }

  lemma JoinIs(q: seq<Pid>, q': seq<Pid>, pid: Pid)
    ensures Joined(q, q', pid) <==> q' == AddWaiter(q, pid)
  {
    if Joined(q, q', pid) && pid !in q {
      assert q' == q'[..|q|] + q'[|q|..];
      assert q'[..|q|] == q;
    }
  }

  lemma {:induction false} RemovesNone(q: seq<Pid>, pid: Pid)
    requires pid !in q
    ensures RemoveWaiter(q, pid) == q
  {
    if q != [] {
      RemovesNone(q[..|q| - 1], pid);
      assert q == q[..|q| - 1] + [q[|q| - 1]];
    }
  }

  lemma {:induction false} RemovesAt(q: seq<Pid>, i: nat)
    requires Distinct(q) && i < |q|
    ensures RemoveWaiter(q, q[i]) == q[..i] + q[i + 1..]
  {
    var front := q[..|q| - 1];
    if i == |q| - 1 {
      RemovesNone(front, q[i]);
    } else {
      RemovesAt(front, i);
      assert q[i + 1..] == front[i + 1..] + [q[|q| - 1]];
    }
  }

  lemma LeaveIs(q: seq<Pid>, q': seq<Pid>, pid: Pid)
    requires Distinct(q)
    ensures Left(q, q', pid) <==> q' == RemoveWaiter(q, pid)
  {
    if pid in q {
      var i :| 0 <= i < |q| && q[i] == pid;
      RemovesAt(q, i);
    } else {
      RemovesNone(q, pid);
    }
  }

  /** The clauses pin a read: they hold of its effect and of no other. */
  lemma ReadIs(s: PipeState, pid: Pid, n: nat, nonblock: bool, e: Effect)
    ensures ReadMeets(s, pid, n, nonblock, e) <==> e == Read(s, pid, n, nonblock)
  {
    hide AddWaiter, Joined;
    JoinIs(s.readWaiters, e.s.readWaiters, pid);
    var r := Read(s, pid, n, nonblock);
    JoinIs(s.readWaiters, r.s.readWaiters, pid);
    SplitIs(Taken(r.out), r.s.contents, s.contents, Min(n, |s.contents|));
    if ReadMeets(s, pid, n, nonblock, e) {
      if e.out.Got? { SplitIs(e.out.bytes, e.s.contents, s.contents, Min(n, |s.contents|)); }
      SplitIs(e.woken, e.s.writeWaiters, s.writeWaiters, |e.woken|);
    }
  }

  /** The only way to cut a sequence in two after `k`. */
  lemma SplitIs<T>(a: seq<T>, b: seq<T>, whole: seq<T>, k: nat)
    requires k <= |whole|
    ensures a + b == whole && |a| == k <==> a == whole[..k] && b == whole[k..]
  {
  }

  lemma WriteIs(s: PipeState, pid: Pid, bytes: seq<bv8>, nonblock: bool, e: Effect)
    requires |s.contents| <= CAPACITY
    ensures WriteMeets(s, pid, bytes, nonblock, e) <==> e == Write(s, pid, bytes, nonblock)
  {
    hide AddWaiter, Joined;
    JoinIs(s.writeWaiters, e.s.writeWaiters, pid);
    JoinIs(s.writeWaiters, Write(s, pid, bytes, nonblock).s.writeWaiters, pid);
  }

  /** Every section of the pipe does what its clauses ask, and the clauses leave no choice. */
  lemma StepIs(s: PipeState, op: Op, e: Effect)
    requires |s.contents| <= CAPACITY && WaitersDistinct(s)
    ensures Meets(s, op, e) <==> e == Step(s, op)
  {
    hide Read, Write, ReadMeets, WriteMeets, Distinct, Left, RemoveWaiter;
    match op
    case ReadOp(pid, n, nonblock) => ReadIs(s, pid, n, nonblock, e);
    case WriteOp(pid, bytes, nonblock) => WriteIs(s, pid, bytes, nonblock, e);
    case CloseReaderOp =>
    case CloseWriterOp =>
    case InterruptReader(pid) => LeaveIs(s.readWaiters, e.s.readWaiters, pid);
    case InterruptWriter(pid) => LeaveIs(s.writeWaiters, e.s.writeWaiters, pid);
  }

  lemma LeaveKeepsDistinct(q: seq<Pid>, pid: Pid)
    requires Distinct(q)
    ensures Distinct(RemoveWaiter(q, pid))
  {
    hide RemoveWaiter;
    LeaveIs(q, RemoveWaiter(q, pid), pid);
    if pid in q {
      var i :| 0 <= i < |q| && q[i] == pid;
      assert RemoveWaiter(q, pid) == q[..i] + q[i + 1..];
    }
  }

  lemma StepKeepsDistinct(s: PipeState, op: Op)
    requires |s.contents| <= CAPACITY && WaitersDistinct(s)
    ensures WaitersDistinct(Step(s, op).s)
  {
    hide RemoveWaiter;
    if op.InterruptReader? {
      LeaveKeepsDistinct(s.readWaiters, op.pid);
    } else if op.InterruptWriter? {
      LeaveKeepsDistinct(s.writeWaiters, op.pid);
    }
  }

  /** Over every run of a new pipe no task is in a queue twice, and every section meets its clauses. */
  lemma {:induction false} RunMeets(h: seq<PipeState>, ops: seq<Op>, n: nat)
    requires Run(h, ops) && n <= |ops| && h[0] == NEW_PIPE
    ensures WaitersDistinct(h[n]) && (n < |ops| ==> Meets(h[n], ops[n], Step(h[n], ops[n])))
  {
    hide Step, Meets, Distinct;
    if n == 0 {
      EmptyDistinct();
    } else {
      RunMeets(h, ops, n - 1);
      StepKeepsDistinct(h[n - 1], ops[n - 1]);
    }
    if n < |ops| {
      StepIs(h[n], ops[n], Step(h[n], ops[n]));
    }
  }

  lemma EmptyDistinct()
    ensures WaitersDistinct(NEW_PIPE)
  {
  }

  // ----- the ring -----

  /** The place `n` bytes after `pos`. */
  function Cursor(pos: nat, n: nat): (r: nat)
    ensures r < CAPACITY
  {
    (pos + n) % CAPACITY
  }

  /** The `n` bytes of a ring from `pos` on. */
  ghost function Ring(data: seq<bv8>, pos: nat, n: nat): (s: seq<bv8>)
    requires |data| == CAPACITY
    ensures |s| == n
  {
    seq(n, i requires 0 <= i < n => data[Cursor(pos, i)])
  }

  lemma Advance(pos: nat, i: nat)
    requires pos < CAPACITY
    ensures Cursor(Cursor(pos, 1), i) == Cursor(pos, i + 1) == Cursor(Cursor(pos, i), 1)
    ensures Cursor(pos, 0) == pos
  {
    Wraps(pos + 1, i);
    Wraps(pos + i, 1);
  }

  lemma Wraps(a: nat, k: nat)
    ensures (a % CAPACITY + k) % CAPACITY == (a + k) % CAPACITY
  {
    AddTurns(a % CAPACITY + k, a / CAPACITY);
  }

  lemma {:induction false} AddTurns(x: nat, turns: nat)
    ensures (x + turns * CAPACITY) % CAPACITY == x % CAPACITY
  {
    if turns > 0 { AddTurns(x, turns - 1); }
  }

  /** One byte more of the ring. */
  lemma RingNext(data: seq<bv8>, pos: nat, n: nat)
    requires |data| == CAPACITY
    ensures Ring(data, pos, n + 1) == Ring(data, pos, n) + [data[Cursor(pos, n)]]
  {
    hide Cursor;
  }

  lemma {:induction false} AdvanceBy(pos: nat, k: nat, i: nat)
    requires pos < CAPACITY
    ensures Cursor(Cursor(pos, k), i) == Cursor(pos, k + i)
  {
    Wraps(pos + k, i);
  }

  /** Taking the first `k` bytes leaves the ring that begins after them. */
  lemma RingSplit(data: seq<bv8>, pos: nat, n: nat, k: nat)
    requires |data| == CAPACITY && pos < CAPACITY && k <= n
    ensures Ring(data, pos, n)[..k] == Ring(data, pos, k)
    ensures Ring(data, pos, n)[k..] == Ring(data, Cursor(pos, k), n - k)
  {
    hide Cursor;
    var whole, rest := Ring(data, pos, n), Ring(data, Cursor(pos, k), n - k);
    forall i | 0 <= i < n - k
      ensures whole[k + i] == rest[i]
    {
      AdvanceBy(pos, k, i);
    }
  }

  lemma CursorsApart(pos: nat, n: nat, i: nat)
    requires pos < CAPACITY && i < n < CAPACITY
    ensures Cursor(pos, i) != Cursor(pos, n)
  {
  }

  /** Storing a byte at the write cursor. */
  lemma RingPush(data: seq<bv8>, pos: nat, n: nat, b: bv8)
    requires |data| == CAPACITY && pos < CAPACITY && n < CAPACITY
    ensures Ring(data[Cursor(pos, n) := b], pos, n + 1) == Ring(data, pos, n) + [b]
  {
    hide Cursor;
    var data' := data[Cursor(pos, n) := b];
    forall i | 0 <= i < n + 1
      ensures Ring(data', pos, n + 1)[i] == (Ring(data, pos, n) + [b])[i]
    {
      if i < n { CursorsApart(pos, n, i); }
    }
  }

  class PipeBuffer {
    const data: array<bv8>
    var readPos: nat
    var writePos: nat
    var len: nat
    var readersOpen: nat
    var writersOpen: nat
    var readWaiters: seq<Pid>
    var writeWaiters: seq<Pid>

    ghost predicate Valid()
      reads this
    {
      && data.Length == CAPACITY && readPos < CAPACITY && len <= CAPACITY
      && writePos == Cursor(readPos, len)
    }

    ghost function Contents(): (s: seq<bv8>)
      requires Valid()
      reads this, data
    {
      Ring(data[..], readPos, len)
    }

    ghost function Value(): (s: PipeState)
      requires Valid()
      reads this, data
    {
      PipeState(Contents(), readersOpen, writersOpen, readWaiters, writeWaiters)
    }

    constructor ()
      ensures Valid() && Value() == NEW_PIPE && fresh(data)
    {
      data := new bv8[CAPACITY];
      readPos, writePos, len := 0, 0, 0;
      readersOpen, writersOpen := 1, 1;
      readWaiters, writeWaiters := [], [];
    }

    /** Takes `k` bytes out, one at a time. */
    method TakeBytes(k: nat) returns (out: seq<bv8>)
      requires Valid() && k <= len
      modifies this`readPos, this`len
      ensures Valid() && out == old(Contents())[..k] && Contents() == old(Contents())[k..]
      ensures data[..] == old(data[..])
    {
      hide Ring, Cursor;
      ghost var bytes, start := data[..], readPos;
      Advance(start, 0);
      out := [];
      var i := 0;
      while i < k
        invariant 0 <= i <= k && data[..] == bytes && len == old(len)
        invariant readPos == Cursor(start, i) && out == Ring(bytes, start, i)
      {
        RingNext(bytes, start, i);
        Advance(start, i);
        out := out + [data[readPos]];
        readPos := Cursor(readPos, 1);
        i := i + 1;
      }
      RingSplit(bytes, start, len, k);
      AdvanceBy(start, k, len - k);
      len := len - k;
    }

    /** Stores the first `k` bytes, one at a time. */
    method StoreBytes(buf: seq<bv8>, k: nat)
      requires Valid() && k <= |buf| && len + k <= CAPACITY
      modifies this`writePos, this`len, data
      ensures Valid() && Contents() == old(Contents()) + buf[..k]
    {
      hide Ring, Cursor;
      ghost var all := Contents();
      var i := 0;
      while i < k
        invariant 0 <= i <= k && len == old(len) && readPos < CAPACITY && writePos == Cursor(readPos, len + i)
        invariant Ring(data[..], readPos, len + i) == all + buf[..i]
      {
        RingPush(data[..], readPos, len + i, buf[i]);
        Advance(readPos, len + i);
        ghost var next := data[..][writePos := buf[i]];
        data[writePos] := buf[i];
        assert data[..] == next;
        writePos := Cursor(writePos, 1);
        i := i + 1;
      }
      len := len + k;
    }

    /** The locked section of a read. */
    method ReadSection(pid: Pid, n: nat, nonblock: bool) returns (out: Outcome, woken: seq<Pid>)
      requires Valid()
      modifies this
      ensures Valid() && Effect(Value(), out, woken) == Read(old(Value()), pid, n, nonblock)
      ensures ReadMeets(old(Value()), pid, n, nonblock, Effect(Value(), out, woken))
    {
      hide Ring, ReadMeets;
      ReadIs(Value(), pid, n, nonblock, Read(Value(), pid, n, nonblock));
      woken := [];
      if len == 0 {
        NoBytes(data[..], readPos);
        if writersOpen == 0 {
          return Got([]), [];
        }
        if nonblock {
          return Again, [];
        }
        readWaiters := AddWaiter(readWaiters, pid);
        return Wait, [];
      }
      var wasFull := len == CAPACITY;
      var k := Min(n, len);
      var bytes := TakeBytes(k);
      if wasFull && len < CAPACITY && writeWaiters != [] {
        woken := [writeWaiters[0]];
        writeWaiters := writeWaiters[1..];
      }
      out := Got(bytes);
    }

    /** The locked section of a write. */
    method WriteSection(pid: Pid, bytes: seq<bv8>, nonblock: bool) returns (out: Outcome, woken: seq<Pid>)
      requires Valid()
      modifies this, data
      ensures Valid() && Effect(Value(), out, woken) == Write(old(Value()), pid, bytes, nonblock)
      ensures WriteMeets(old(Value()), pid, bytes, nonblock, Effect(Value(), out, woken))
    {
      hide Ring, WriteMeets;
      WriteIs(Value(), pid, bytes, nonblock, Write(Value(), pid, bytes, nonblock));
      woken := [];
      if readersOpen == 0 {
        return BrokenPipe, [];
      }
      var space := CAPACITY - len;
      if space == 0 {
        if nonblock {
          return Again, [];
        }
        writeWaiters := AddWaiter(writeWaiters, pid);
        return Wait, [];
      }
      NoBytes(data[..], readPos);
      var wasEmpty := len == 0;
      var k := Min(|bytes|, space);
      StoreBytes(bytes, k);
      if wasEmpty && len > 0 {
        woken := readWaiters;
        readWaiters := [];
      }
      out := Put(k);
    }

    method DropReadEnd() returns (woken: seq<Pid>)
      requires Valid()
      modifies this`readersOpen, this`writeWaiters
      ensures Valid() && Effect(Value(), Closed, woken) == CloseReader(old(Value()))
    {
      readersOpen := Drop(readersOpen);
      woken := [];
      if readersOpen == 0 {
        woken := writeWaiters;
        writeWaiters := [];
      }
    }

    method DropWriteEnd() returns (woken: seq<Pid>)
      requires Valid()
      modifies this`writersOpen, this`readWaiters
      ensures Valid() && Effect(Value(), Closed, woken) == CloseWriter(old(Value()))
    {
      writersOpen := Drop(writersOpen);
      woken := [];
      if writersOpen == 0 {
        woken := readWaiters;
        readWaiters := [];
      }
    }
  }

  lemma NoBytes(data: seq<bv8>, pos: nat)
    requires |data| == CAPACITY
    ensures Ring(data, pos, 0) == []
  {
  }
}
