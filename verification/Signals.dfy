/** Signal delivery and return on the system-call path: frames pushed on the user stack, handlers run
    at any nesting depth, and sigreturn restores what delivery saved. */
module Signals {
  import opened Common
  import Scheduler

  /** A 64-bit signal mask, as the set of its signal numbers. */
  type SigSet = set<int>

  const SIGKILL := 9
  const SIGCHLD := 17
  const SIGSTOP := 19
  const SIGTSTP := 20
  const SIGTTIN := 21
  const SIGTTOU := 22
  const SIGURG := 23
  const SIGWINCH := 28
  const SIG_MAX := 31

  const RED_ZONE := 128
  const FRAME_SIZE := 152
  const SIG_DFL := 0
  const SIG_IGN := 1

  datatype Action = Action(handler: nat, restorer: nat, mask: SigSet, nodefer: bool, resethand: bool)

  const DEFAULT_ACTION := Action(SIG_DFL, 0, {}, false, false)

  /** User registers; rcx holds the instruction pointer and r11 the flags. */
  datatype Regs = Regs(r15: nat, r14: nat, r13: nat, r12: nat, rbp: nat, rbx: nat, r9: nat, r8: nat, r10: nat,
                       rdx: nat, rsi: nat, rdi: nat, rax: nat, rcx: nat, r11: bv64, rsp: nat)

  datatype SignalFrame = SignalFrame(restorer: nat, signum: int, oldMask: SigSet,
                                     f15: nat, f14: nat, f13: nat, f12: nat, fbp: nat, fbx: nat, f9: nat, f8: nat,
                                     f10: nat, fdx: nat, fsi: nat, fdi: nat, fax: nat, fcx: nat, f11: bv64, fsp: nat)

  /** Flags a program may set itself, plus the two bits that are always on. */
  function UserFlags(r11: bv64): (r: bv64) {
    (r11 & 0xCD5) | 0x202
  }

  // ----- user memory -----

  /** Where intact frames lie in user memory. Storing over any byte of a frame destroys it. */
  type Frames = map<nat, SignalFrame>

  predicate Meets(base: nat, lo: nat, hi: nat) {
    lo < base + FRAME_SIZE && base < hi
  }

  function Scribble(mem: Frames, lo: nat, hi: nat): (r: Frames) {
    map b | b in mem && !Meets(b, lo, hi) :: mem[b]
  }

  function StoreFrame(mem: Frames, base: nat, f: SignalFrame): (r: Frames) {
    Scribble(mem, base, base + FRAME_SIZE)[base := f]
  }

  // ----- delivery -----

  /** Everything about one process that signals touch. */
  datatype Task = Task(regs: Regs, mem: Frames, blocked: SigSet, pending: SigSet, actions: map<int, Action>)

  function ActionOf(t: Task, sig: int): (a: Action) {
    if sig in t.actions then t.actions[sig] else DEFAULT_ACTION
  }

  datatype How = BlockMask | UnblockMask | SetMask

  /** SIGKILL and SIGSTOP are taken out of whatever is asked for. */
  function SetProcmask(blocked: SigSet, how: How, newSet: SigSet): (r: SigSet) {
    var effective := newSet - {SIGKILL, SIGSTOP};
    match how
    case BlockMask => blocked + effective
    case UnblockMask => blocked - effective
    case SetMask => effective
  }

  predicate DefaultIgnore(sig: int) {
    sig == SIGCHLD || sig == SIGURG || sig == SIGWINCH
  }

  predicate DefaultStop(sig: int) {
    sig == SIGSTOP || sig == SIGTSTP || sig == SIGTTIN || sig == SIGTTOU
  }

  predicate Ignored(a: Action, sig: int) {
    a.handler == SIG_IGN || (a.handler == SIG_DFL && DefaultIgnore(sig))
  }

  /** A signal that has an effect now: it is not ignored, and without a handler it is none of those that
      do nothing (17, 23, 28) or would stop the process (19 to 22) by default. */
  ghost predicate Deliverable(t: Task, sig: int) {
    && sig in t.pending && sig !in t.blocked && ActionOf(t, sig).handler != 1
    && (ActionOf(t, sig).handler == 0 ==> !(sig in {17, 23, 28}) && !(19 <= sig <= 22))
  }

  /** A signal that is thrown away when it is looked at. */
  ghost predicate Discarded(t: Task, sig: int) {
    && sig in t.pending && sig !in t.blocked
    && (ActionOf(t, sig).handler == 1 || (ActionOf(t, sig).handler == 0 && sig in {17, 23, 28}))
  }

  /** The scan from `sig` up: drops ignored signals, leaves default stops pending, takes the first
      other one. */
  function NextFrom(t: Task, sig: int): (r: (SigSet, Option<int>))
    ensures r.1.Some? ==> r.1.value >= sig
    decreases SIG_MAX + 1 - sig
  {
    if sig > SIG_MAX then (t.pending, None)
    else if sig in t.pending && sig !in t.blocked then
      if Ignored(ActionOf(t, sig), sig) then NextFrom(t.(pending := t.pending - {sig}), sig + 1)
      else if ActionOf(t, sig).handler == SIG_DFL && DefaultStop(sig) then NextFrom(t, sig + 1)
      else (t.pending - {sig}, Some(sig))
    else NextFrom(t, sig + 1)
  }

  /** The scan finds the lowest deliverable signal, and takes away it and the ignored ones below it. */
  lemma {:induction false} NextFromFinds(t: Task, sig: int)
    requires sig <= SIG_MAX + 1
    ensures var r := NextFrom(t, sig); var end := if r.1.Some? then r.1.value else SIG_MAX + 1;
            && (r.1.Some? ==> sig <= r.1.value <= SIG_MAX && Deliverable(t, r.1.value))
            && (forall s :: sig <= s < end ==> !Deliverable(t, s))
            && (forall s :: s in r.0 <==>
                  s in t.pending && r.1 != Some(s) && !(sig <= s < end && Discarded(t, s)))
    decreases SIG_MAX + 1 - sig
  {
    hide Ignored, DefaultStop, ActionOf;
    if sig <= SIG_MAX {
      EffectIs(t, sig);
      if Discarded(t, sig) {
        var t' := t.(pending := t.pending - {sig});
        SameActions(t, t');
        NextFromFinds(t', sig + 1);
        assert forall s :: s > sig ==> (Deliverable(t', s) <==> Deliverable(t, s));
        assert forall s :: s > sig ==> (Discarded(t', s) <==> Discarded(t, s));
      } else if !Deliverable(t, sig) {
        NextFromFinds(t, sig + 1);
      }
    }
  }

  lemma EffectIs(t: Task, sig: int)
    ensures Discarded(t, sig) <==> sig in t.pending && sig !in t.blocked && Ignored(ActionOf(t, sig), sig)
    ensures Deliverable(t, sig) <==>
            && sig in t.pending && sig !in t.blocked && !Ignored(ActionOf(t, sig), sig)
            && !(ActionOf(t, sig).handler == SIG_DFL && DefaultStop(sig))
  {
  }

  lemma SameActions(t: Task, t': Task)
    requires t'.actions == t.actions
    ensures forall s :: ActionOf(t', s) == ActionOf(t, s)
  {
  }

  /** The frame goes below the red zone, 16-byte aligned. */
  function FrameBase(rsp: nat): (base: nat) {
    var room := if rsp < RED_ZONE + FRAME_SIZE then 0 else rsp - (RED_ZONE + FRAME_SIZE);
    room - room % 16
  }

  function FrameFor(t: Task, sig: int, a: Action): (f: SignalFrame) {
    var r := t.regs;
    SignalFrame(a.restorer, sig, t.blocked, r.r15, r.r14, r.r13, r.r12, r.rbp, r.rbx, r.r9, r.r8, r.r10,
                r.rdx, r.rsi, r.rdi, r.rax, r.rcx, r.r11, r.rsp)
  }

  function MaskInHandler(blocked: SigSet, sig: int, a: Action): (m: SigSet) {
    SetProcmask(blocked, SetMask, blocked + a.mask + (if a.nodefer then {} else {sig}))
  }

  /** Pushes the frame and enters the handler; a frame that cannot be stored ends the process. */
  function DeliverTo(t: Task, sig: nat, a: Action, writable: bool): (r: Option<Task>) {
    var base := FrameBase(t.regs.rsp);
    if base == 0 || base + FRAME_SIZE > USER_SPACE_END || !writable then None
    else Some(Task(
      t.regs.(rsp := base, rcx := a.handler, rdi := sig, rsi := 0, rdx := base),
      StoreFrame(t.mem, base, FrameFor(t, sig, a)),
      MaskInHandler(t.blocked, sig, a),
      t.pending,
      if a.resethand && sig != SIGKILL && sig != SIGSTOP then t.actions[sig := DEFAULT_ACTION] else t.actions))
  }

  /** How a return to user mode ends. */
  datatype Return = Resumed(t: Task) | Entered(t: Task, sig: int) | Killed(sig: int)

  /** A system call's return: its value goes to rax, then the next signal is looked at. */
  function ReturnToUser(t0: Task, ret: nat, writable: bool): (r: Return) {
    var t := t0.(regs := t0.regs.(rax := ret));
    var n := NextFrom(t, 1);
    var t1 := t.(pending := n.0);
    if n.1.None? then Resumed(t1)
    else
      var sig := n.1.value;
      var a := ActionOf(t, sig);
      if a.handler == SIG_DFL then Killed(sig)
      else
        var d := DeliverTo(t1, sig, a, writable);
        if d.None? then Killed(11) else Entered(d.value, sig)
  }

  /** The lowest signal that has an effect. */
  ghost predicate Lowest(t: Task, sig: int) {
    1 <= sig <= SIG_MAX && Deliverable(t, sig) && forall s :: 1 <= s < sig ==> !Deliverable(t, s)
  }

  /** The highest 16-byte boundary with room for the frame between it and the red zone below `rsp`. */
  ghost predicate FrameAt(rsp: nat, base: nat) {
    base % 16 == 0 && base + FRAME_SIZE + RED_ZONE <= rsp < base + 16 + FRAME_SIZE + RED_ZONE
  }

  ghost predicate HasRoom(rsp: nat) {
    exists base: nat :: FrameAt(rsp, base) && 0 < base && base + FRAME_SIZE <= USER_SPACE_END
  }

  /** The frame holds what the interrupted code had, and the stack around it is untouched. */
  ghost predicate FrameStored(t0: Task, regs: Regs, sig: int, a: Action, base: nat, mem: Frames) {
    && (forall b :: b in mem <==> b == base || (b in t0.mem && (b + FRAME_SIZE <= base || base + FRAME_SIZE <= b)))
    && (forall b :: b in mem && b != base ==> mem[b] == t0.mem[b])
    && mem[base].restorer == a.restorer && mem[base].signum == sig && mem[base].oldMask == t0.blocked
    && SavedRegs(mem[base]) == regs
  }

  /** The registers a frame holds. */
  function SavedRegs(f: SignalFrame): (r: Regs) {
    Regs(f.f15, f.f14, f.f13, f.f12, f.fbp, f.fbx, f.f9, f.f8, f.f10, f.fdx, f.fsi, f.fdi, f.fax, f.fcx, f.f11,
         f.fsp)
  }

  /** How a handler is entered: every register but five is the interrupted code's, the mask is what was
      blocked with the action's mask and the signal itself unless it may nest, and the signal and the
      discarded ones below it are no longer pending. */
  ghost predicate EntryMeets(t0: Task, ret: nat, sig: int, t: Task) {
    var a, regs := ActionOf(t0, sig), t0.regs.(rax := ret);
    && FrameAt(t0.regs.rsp, t.regs.rsp) && sig >= 0
    && t.regs == regs.(rsp := t.regs.rsp, rcx := a.handler, rdi := sig, rsi := 0, rdx := t.regs.rsp)
    && FrameStored(t0, regs, sig, a, t.regs.rsp, t.mem)
    && (forall s :: s in t.blocked <==>
          s != 9 && s != 19 && (s in t0.blocked || s in a.mask || (s == sig && !a.nodefer)))
    && (forall s :: s in t.pending <==> s in t0.pending && s != sig && !(1 <= s < sig && Discarded(t0, s)))
    && t.actions == if a.resethand && sig != 9 && sig != 19 then t0.actions[sig := DEFAULT_ACTION] else t0.actions
  }

  /** Going on without a handler: only the result register and the discarded signals change. */
  ghost predicate ResumeMeets(t0: Task, ret: nat, t: Task) {
    && t == t0.(regs := t0.regs.(rax := ret), pending := t.pending)
    && forall s :: s in t.pending <==> s in t0.pending && !(1 <= s <= SIG_MAX && Discarded(t0, s))
  }

  /** A return to user mode, by the pending signals, the mask, the actions and the stack: it goes on
      exactly if no signal has an effect; otherwise the lowest that has one ends the process, by itself
      if it has no handler and as signal 11 if its frame cannot be stored, or enters its handler. */
  ghost predicate ReturnMeets(t0: Task, ret: nat, writable: bool, r: Return) {
    && (r.Resumed? <==> forall s :: 1 <= s <= SIG_MAX ==> !Deliverable(t0, s))
    && (r.Resumed? ==> ResumeMeets(t0, ret, r.t))
    && forall sig :: Lowest(t0, sig) ==>
      if ActionOf(t0, sig).handler == 0 then r == Killed(sig)
      else if !writable || !HasRoom(t0.regs.rsp) then r == Killed(11)
      else r.Entered? && r.sig == sig && EntryMeets(t0, ret, sig, r.t)
  }

  lemma BaseIs(rsp: nat, base: nat)
    ensures base > 0 ==> (FrameAt(rsp, base) <==> base == FrameBase(rsp))
  {
  }

  lemma RoomIs(rsp: nat)
    ensures HasRoom(rsp) <==> FrameBase(rsp) > 0 && FrameBase(rsp) + FRAME_SIZE <= USER_SPACE_END
  {
    hide FrameAt, FrameBase;
    BaseIs(rsp, FrameBase(rsp));
    if HasRoom(rsp) {
      var base: nat :| FrameAt(rsp, base) && 0 < base && base + FRAME_SIZE <= USER_SPACE_END;
      BaseIs(rsp, base);
    }
  }

  lemma SameSignals(a: SigSet, b: SigSet)
    ensures (forall s :: s in a <==> s in b) <==> a == b
  {
    if forall s :: s in a <==> s in b {
      forall s | s in a
        ensures s in b
      {
      }
      forall s | s in b
        ensures s in a
      {
      }
    }
  }

  lemma StoredIs(t0: Task, t1: Task, sig: int, a: Action, base: nat, mem: Frames)
    requires t1.mem == t0.mem && t1.blocked == t0.blocked
    ensures FrameStored(t0, t1.regs, sig, a, base, mem) <==> mem == StoreFrame(t0.mem, base, FrameFor(t1, sig, a))
  {
    var m := StoreFrame(t0.mem, base, FrameFor(t1, sig, a));
    if FrameStored(t0, t1.regs, sig, a, base, mem) {
      assert mem[base] == FrameFor(t1, sig, a);
      assert mem == m;
    }
  }

  lemma MaskIs(blocked: SigSet, sig: int, a: Action, m: SigSet)
    ensures (forall s :: s in m <==> s != 9 && s != 19 && (s in blocked || s in a.mask || (s == sig && !a.nodefer)))
            <==> m == MaskInHandler(blocked, sig, a)
  {
    var n := MaskInHandler(blocked, sig, a);
    assert forall s :: s in n <==> s != 9 && s != 19 && (s in blocked || s in a.mask || (s == sig && !a.nodefer));
    if forall s :: s in m <==> s != 9 && s != 19 && (s in blocked || s in a.mask || (s == sig && !a.nodefer)) {
      assert m == n;
    }
  }

  /** The clauses of an entry hold of the delivery and of no other state. */
  lemma EntryIs(t0: Task, ret: nat, sig: nat, pending: SigSet, t: Task)
    requires HasRoom(t0.regs.rsp)
    requires forall s :: s in pending <==> s in t0.pending && s != sig && !(1 <= s < sig && Discarded(t0, s))
    ensures var t1 := t0.(regs := t0.regs.(rax := ret), pending := pending);
            EntryMeets(t0, ret, sig, t) <==> DeliverTo(t1, sig, ActionOf(t0, sig), true) == Some(t)
  {
    hide FrameAt, FrameBase, FrameStored, StoreFrame, FrameFor, MaskInHandler, Discarded, HasRoom;
    var t1 := t0.(regs := t0.regs.(rax := ret), pending := pending);
    var a := ActionOf(t0, sig);
    RoomIs(t0.regs.rsp);
    BaseIs(t0.regs.rsp, t.regs.rsp);
    BaseIs(t0.regs.rsp, FrameBase(t0.regs.rsp));
    NoRoomAtZero(t0.regs.rsp);
    StoredIs(t0, t1, sig, a, t.regs.rsp, t.mem);
    MaskIs(t0.blocked, sig, a, t.blocked);
    SameSignals(t.pending, pending);
  }

  lemma NoRoomAtZero(rsp: nat)
    requires FrameBase(rsp) > 0
    ensures !FrameAt(rsp, 0)
  {
  }

  lemma SameEffects(t0: Task, t: Task)
    requires t == t0.(regs := t.regs)
    ensures forall s :: ActionOf(t, s) == ActionOf(t0, s)
    ensures forall s :: Deliverable(t, s) <==> Deliverable(t0, s)
    ensures forall s :: Discarded(t, s) <==> Discarded(t0, s)
  {
  }

  /** The clauses pin the return: they hold of its outcome and of no other. */
  lemma ReturnIs(t0: Task, ret: nat, writable: bool, r: Return)
    ensures ReturnMeets(t0, ret, writable, r) <==> r == ReturnToUser(t0, ret, writable)
  {
    hide NextFrom, DeliverTo, Deliverable, Discarded, ActionOf, EntryMeets, HasRoom;
    var t := t0.(regs := t0.regs.(rax := ret));
    SameEffects(t0, t);
    NextFromFinds(t, 1);
    var n := NextFrom(t, 1);
    if n.1.None? {
      ResumeIs(t0, ret, n.0, r);
    } else {
      var sig := n.1.value;
      assert Lowest(t0, sig);
      assert forall s :: Lowest(t0, s) ==> s == sig;
      RefusedIs(t.(pending := n.0), sig, ActionOf(t0, sig), writable);
      if ActionOf(t0, sig).handler != 0 && writable && HasRoom(t0.regs.rsp) && r.Entered? {
        EntryIs(t0, ret, sig, n.0, r.t);
      }
    }
  }

  lemma RefusedIs(t: Task, sig: nat, a: Action, writable: bool)
    ensures DeliverTo(t, sig, a, writable).None? <==> !writable || !HasRoom(t.regs.rsp)
    ensures writable ==> DeliverTo(t, sig, a, writable) == DeliverTo(t, sig, a, true)
  {
    hide FrameBase, HasRoom;
    RoomIs(t.regs.rsp);
  }

  lemma ResumeIs(t0: Task, ret: nat, pending: SigSet, r: Return)
    requires forall s :: 1 <= s <= SIG_MAX ==> !Deliverable(t0, s)
    requires forall s :: s in pending <==> s in t0.pending && !(1 <= s <= SIG_MAX && Discarded(t0, s))
    ensures (r.Resumed? && ResumeMeets(t0, ret, r.t)) <==>
            r == Resumed(t0.(regs := t0.regs.(rax := ret), pending := pending))
  {
    hide Discarded, Deliverable;
    if r.Resumed? { SameSignals(r.t.pending, pending); }
  }

  /** The flags a return lets through: carry, parity, adjust, zero, sign, direction and overflow as the
      program had them, interrupts on, and nothing else but the bit that is always set. */
  lemma FlagsLetThrough(r11: bv64)
    ensures var f := UserFlags(r11);
            && f & 0x1 == r11 & 0x1 && f & 0x4 == r11 & 0x4 && f & 0x10 == r11 & 0x10 && f & 0x40 == r11 & 0x40
            && f & 0x80 == r11 & 0x80 && f & 0x400 == r11 & 0x400 && f & 0x800 == r11 & 0x800
            && f & 0x200 == 0x200 && f & 0x2 == 0x2 && f & 0xFFFF_FFFF_FFFF_F128 == 0
  {
  }

  /** What a mask holds after each kind of change, signal by signal; and setting the old mask back undoes
      the change. */
  lemma ProcmaskIs(blocked: SigSet, newSet: SigSet, how: How)
    ensures forall s :: s in SetProcmask(blocked, BlockMask, newSet) <==>
              s in blocked || (s in newSet && s != 9 && s != 19)
    ensures forall s :: s in SetProcmask(blocked, UnblockMask, newSet) <==>
              s in blocked && (s !in newSet || s == 9 || s == 19)
    ensures forall s :: s in SetProcmask(blocked, SetMask, newSet) <==> s in newSet && s != 9 && s != 19
    ensures Blockable(blocked) ==> SetProcmask(SetProcmask(blocked, how, newSet), SetMask, blocked) == blocked
  {
  }

  /** What a handler finds: it is entered for the lowest deliverable signal with the signal number and
      the frame as arguments, on an aligned stack whose top is the restorer's address. Nothing that
      was blocked is unblocked, the action's mask is blocked too, the signal does not interrupt its
      own handler unless the action says so, and a one-shot action is back to the default. */
  lemma HandlerEntered(t0: Task, ret: nat, writable: bool)
    requires Blockable(t0.blocked) && ReturnToUser(t0, ret, writable).Entered?
    ensures var r := ReturnToUser(t0, ret, writable); var t := r.t; var a := ActionOf(t0, r.sig);
            && Deliverable(t0, r.sig) && (forall s :: 1 <= s < r.sig ==> !Deliverable(t0, s)) && r.sig !in t.pending
            && t.regs.rcx == a.handler && t.regs.rdi == r.sig && t.regs.rdx == t.regs.rsp && t.regs.rsp % 16 == 0
            && t.regs.rsp in t.mem && t.mem[t.regs.rsp].restorer == a.restorer && t.mem[t.regs.rsp].signum == r.sig
            && t0.blocked <= t.blocked && a.mask - {SIGKILL, SIGSTOP} <= t.blocked
            && (a.nodefer || r.sig in {SIGKILL, SIGSTOP} || !Deliverable(t, r.sig))
            && (a.resethand && r.sig !in {SIGKILL, SIGSTOP} ==> ActionOf(t, r.sig) == DEFAULT_ACTION)
            && (forall s :: s != r.sig ==> ActionOf(t, s) == ActionOf(t0, s))
  {
    hide NextFrom, UserFlags;
    var t := t0.(regs := t0.regs.(rax := ret));
    NextFromFinds(t, 1);
    assert forall s :: Deliverable(t, s) <==> Deliverable(t0, s);
    assert FrameBase(t.regs.rsp) % 16 == 0;
  }

  /** The registers a frame restores. */
  function RegsFrom(f: SignalFrame): (r: Regs) {
    SavedRegs(f).(r11 := UserFlags(f.f11))
  }

  /** sigreturn: reads the frame eight bytes below the stack pointer. */
  function Sigreturn(t: Task): (r: Option<Task>) {
    var base := if t.regs.rsp < 8 then 0 else t.regs.rsp - 8;
    if base !in t.mem then None
    else Some(t.(regs := RegsFrom(t.mem[base]), blocked := SetProcmask(t.blocked, SetMask, t.mem[base].oldMask)))
  }

  // ----- runs -----

  /** A delivery whose handler has not returned: frame address, registers and mask at delivery. */
  datatype Live = Live(base: nat, regs: Regs, mask: SigSet)

  datatype State = State(t: Task, live: seq<Live>)

  datatype Op =
    | UserCode(regs: Regs, lo: nat, hi: nat)       // runs and stores into [lo, hi)
    | Syscall(ret: nat, writable: bool)            // a call returns and signals are looked at
    | Procmask(how: How, mask: SigSet)
    | Sigaction(sig: int, action: Action)
    | Send(sig: int)
    | HandlerReturn                                // the restorer calls sigreturn

  function Step(s: State, op: Op): (r: Option<State>) {
    match op
    case UserCode(regs, lo, hi) => Some(s.(t := s.t.(regs := regs, mem := Scribble(s.t.mem, lo, hi))))
    case Syscall(ret, writable) =>
      var r := ReturnToUser(s.t, ret, writable);
      match r {
        case Resumed(t) => Some(s.(t := t))
        case Entered(t, sig) => Some(State(t, s.live + [Live(t.regs.rsp, s.t.regs.(rax := ret), s.t.blocked)]))
        case Killed(_) => None
      }
    case Procmask(how, mask) => Some(s.(t := s.t.(blocked := SetProcmask(s.t.blocked, how, mask))))
    case Sigaction(sig, action) =>
      Some(if sig == SIGKILL || sig == SIGSTOP then s else s.(t := s.t.(actions := s.t.actions[sig := action])))
    case Send(sig) => Some(s.(t := s.t.(pending := s.t.pending + {sig})))
    case HandlerReturn =>
      var t := Sigreturn(s.t);
      if t.None? || s.live == [] then None else Some(State(t.value, s.live[..|s.live| - 1]))
  }

  /** Sending, masking and registering: one signal is added, the mask changes as asked, and one action is
      replaced unless it is that of SIGKILL or SIGSTOP; nothing else changes. */
  lemma CallsDo(s: State, sig: int, action: Action, how: How, mask: SigSet)
    ensures var r := Step(s, Send(sig)); r.Some? && r.value == s.(t := s.t.(pending := s.t.pending + {sig}))
    ensures var r := Step(s, Procmask(how, mask));
            r.Some? && r.value == s.(t := s.t.(blocked := SetProcmask(s.t.blocked, how, mask)))
    ensures var r := Step(s, Sigaction(sig, action));
            && r.Some? && r.value == s.(t := s.t.(actions := r.value.t.actions))
            && forall x :: ActionOf(r.value.t, x) ==
                 if x == sig && sig != 9 && sig != 19 then action else ActionOf(s.t, x)
  {
  }

  /** Programs keep to their stack: while a handler runs, the stack pointer stays below its frame, no
      store touches a live frame, and sigreturn is called the way the handler's return leaves it. */
  ghost predicate WellBehaved(s: State, op: Op) {
    match op
    case UserCode(regs, lo, hi) =>
      && (s.live != [] ==> regs.rsp <= s.live[|s.live| - 1].base + 8)
      && forall i :: 0 <= i < |s.live| ==> !Meets(s.live[i].base, lo, hi)
    case HandlerReturn => s.live != [] && s.t.regs.rsp == s.live[|s.live| - 1].base + 8
    case _ => true
  }

  ghost predicate Blockable(m: SigSet) {
    SIGKILL !in m && SIGSTOP !in m
  }

  /** The frame of a live delivery is intact and lies below the interrupted code's red zone. */
  ghost predicate FrameIntact(mem: Frames, l: Live) {
    && l.base in mem && RegsFrom(mem[l.base]) == l.regs.(r11 := UserFlags(l.regs.r11)) && mem[l.base].oldMask == l.mask
    && 0 < l.base && l.base % 16 == 0 && l.base + FRAME_SIZE + RED_ZONE <= l.regs.rsp
    && Blockable(l.mask)
  }

  /** Later frames lie below earlier ones. */
  ghost predicate Stacked(live: seq<Live>) {
    forall i, j :: 0 <= i < j < |live| ==>
      live[j].base + FRAME_SIZE <= live[i].base && live[j].regs.rsp <= live[i].base + 8
  }

  ghost predicate Inv(s: State) {
    && (forall i :: 0 <= i < |s.live| ==> FrameIntact(s.t.mem, s.live[i]))
    && Stacked(s.live) && (s.live != [] ==> s.t.regs.rsp <= s.live[|s.live| - 1].base + 8)
    && Blockable(s.t.blocked)
  }

  lemma BaseBelow(rsp: nat)
    requires FrameBase(rsp) > 0
    ensures FrameBase(rsp) % 16 == 0 && FrameBase(rsp) + FRAME_SIZE + RED_ZONE <= rsp
  {
  }

  lemma FrameSurvives(mem: Frames, l: Live, lo: nat, hi: nat)
    requires FrameIntact(mem, l) && !Meets(l.base, lo, hi)
    ensures FrameIntact(Scribble(mem, lo, hi), l)
  {
  }

  /** Entering a handler adds a frame below everything that is live. */
  lemma DeliveryKeeps(t: Task, live: seq<Live>, sig: nat, a: Action, writable: bool)
    requires Inv(State(t, live)) && DeliverTo(t, sig, a, writable).Some?
    ensures var d := DeliverTo(t, sig, a, writable).value;
            Inv(State(d, live + [Live(d.regs.rsp, t.regs, t.blocked)]))
  {
    hide FrameIntact, UserFlags;
    var d := DeliverTo(t, sig, a, writable).value;
    var base := FrameBase(t.regs.rsp);
    BaseBelow(t.regs.rsp);
    var l := Live(base, t.regs, t.blocked);
    forall i | 0 <= i < |live|
      ensures FrameIntact(d.mem, live[i]) && base + FRAME_SIZE <= live[i].base && t.regs.rsp <= live[i].base + 8
    {
      assert t.regs.rsp <= live[i].base + 8;
      FrameSurvives(t.mem, live[i], base, base + FRAME_SIZE);
      FrameElsewhere(Scribble(t.mem, base, base + FRAME_SIZE), live[i], base, FrameFor(t, sig, a));
    }
    NewFrameIntact(t, sig, a, base);
  }

  lemma FrameElsewhere(mem: Frames, l: Live, base: nat, f: SignalFrame)
    requires FrameIntact(mem, l) && l.base != base
    ensures FrameIntact(mem[base := f], l)
  {
  }

  lemma NewFrameIntact(t: Task, sig: nat, a: Action, base: nat)
    requires base == FrameBase(t.regs.rsp) > 0 && Blockable(t.blocked)
    ensures FrameIntact(StoreFrame(t.mem, base, FrameFor(t, sig, a)), Live(base, t.regs, t.blocked))
  {
    BaseBelow(t.regs.rsp);
  }

  lemma SyscallKeeps(s: State, ret: nat, writable: bool)
    requires Inv(s) && Step(s, Syscall(ret, writable)).Some?
    ensures Inv(Step(s, Syscall(ret, writable)).value)
  {
    hide FrameIntact, DeliverTo;
    var t := s.t.(regs := s.t.regs.(rax := ret));
    var n := NextFrom(t, 1);
    var t1 := t.(pending := n.0);
    assert Inv(State(t1, s.live));
    if n.1.Some? && DeliverTo(t1, n.1.value, ActionOf(t, n.1.value), writable).Some? {
      DeliveryKeeps(t1, s.live, n.1.value, ActionOf(t, n.1.value), writable);
    }
  }

  lemma UserKeeps(s: State, regs: Regs, lo: nat, hi: nat)
    requires Inv(s) && WellBehaved(s, UserCode(regs, lo, hi))
    ensures Inv(Step(s, UserCode(regs, lo, hi)).value)
  {
    hide FrameIntact, Scribble, Meets;
    forall i | 0 <= i < |s.live|
      ensures FrameIntact(Scribble(s.t.mem, lo, hi), s.live[i])
    {
      FrameSurvives(s.t.mem, s.live[i], lo, hi);
    }
  }

  /** sigreturn, called as the handler's return leaves it, restores every register saved at delivery,
      the flags through the user mask, and the blocked mask, and closes the innermost delivery. */
  lemma ReturnRestores(s: State)
    requires Inv(s) && WellBehaved(s, HandlerReturn)
    ensures var r := Step(s, HandlerReturn); var l := s.live[|s.live| - 1];
            && r.Some? && Inv(r.value) && r.value.live == s.live[..|s.live| - 1]
            && r.value.t.regs == l.regs.(r11 := UserFlags(l.regs.r11)) && r.value.t.blocked == l.mask
            && r.value.t.mem == s.t.mem && r.value.t.pending == s.t.pending && r.value.t.actions == s.t.actions
  {
    var n := |s.live| - 1;
    assert FrameIntact(s.t.mem, s.live[n]);
  }

  lemma StepKeeps(s: State, op: Op)
    requires Inv(s) && WellBehaved(s, op) && Step(s, op).Some?
    ensures Inv(Step(s, op).value)
  {
    hide FrameIntact, ReturnToUser;
    match op
    case UserCode(regs, lo, hi) => UserKeeps(s, regs, lo, hi);
    case Syscall(ret, writable) => SyscallKeeps(s, ret, writable);
    case Procmask(_, _) =>
    case Sigaction(_, _) =>
    case Send(_) =>
    case HandlerReturn => ReturnRestores(s);
  }

  /** A process with no handler running, as it starts, is sound. */
  lemma StartOk(t: Task)
    requires Blockable(t.blocked)
    ensures Inv(State(t, []))
  {
  }

  ghost predicate Run(h: seq<State>, ops: seq<Op>) {
    && |h| == |ops| + 1
    && forall i :: 0 <= i < |ops| ==>
      WellBehaved(h[i], ops[i]) && Step(h[i], ops[i]).Some? && Step(h[i], ops[i]).value == h[i + 1]
  }

  /** In every reachable state the live frames are intact, apart from each other and from red zones,
      and SIGKILL and SIGSTOP are unblocked. */
  lemma {:induction false} RunKeeps(h: seq<State>, ops: seq<Op>, k: nat)
    requires Run(h, ops) && Inv(h[0]) && k <= |ops|
    ensures Inv(h[k])
  {
    hide Inv, Step, WellBehaved;
    if k > 0 {
      RunKeeps(h, ops, k - 1);
      StepKeeps(h[k - 1], ops[k - 1]);
    }
  }

  /** Steps push or pop at most the innermost delivery. */
  lemma StackDiscipline(s: State, op: Op, n: nat)
    requires Step(s, op).Some? && n <= |s.live| && n <= |Step(s, op).value.live|
    ensures Step(s, op).value.live[..n] == s.live[..n]
  {
    hide ReturnToUser, Sigreturn;
  }

  lemma {:induction false} OuterStays(h: seq<State>, ops: seq<Op>, i: nat, k: nat, n: nat)
    requires Run(h, ops) && i <= k <= |ops| && forall j :: i <= j <= k ==> n <= |h[j].live|
    ensures h[k].live[..n] == h[i].live[..n]
  {
    hide Step, WellBehaved;
    if i < k {
      OuterStays(h, ops, i, k - 1, n);
      assert Step(h[k - 1], ops[k - 1]).value == h[k];
      StackDiscipline(h[k - 1], ops[k - 1], n);
    }
  }

  lemma SyscallPushes(s: State, ret: nat, writable: bool)
    requires Step(s, Syscall(ret, writable)).Some? && |Step(s, Syscall(ret, writable)).value.live| > |s.live|
    ensures var s' := Step(s, Syscall(ret, writable)).value;
            |s'.live| == |s.live| + 1 && s'.live[..|s.live|] == s.live
            && s'.live[|s.live|].regs == s.t.regs.(rax := ret) && s'.live[|s.live|].mask == s.t.blocked
  {
    hide NextFrom, DeliverTo;
  }

  lemma OnlyReturnPops(s: State, op: Op)
    requires Step(s, op).Some? && |Step(s, op).value.live| < |s.live|
    ensures op.HandlerReturn?
  {
    hide ReturnToUser;
  }

  /** Delivery and the matching return, whatever happened in between, nested deliveries included: the
      interrupted code goes on with the registers and mask it had when its call returned. */
  lemma RoundTrip(h: seq<State>, ops: seq<Op>, i: nat, j: nat)
    requires Run(h, ops) && Inv(h[0]) && i < j < |ops| && ops[i].Syscall?
    requires (forall k :: i < k <= j ==> |h[k].live| > |h[i].live|) && |h[j + 1].live| <= |h[i].live|
    ensures var saved := h[i].t.regs.(rax := ops[i].ret);
            && h[j + 1].t.regs == saved.(r11 := UserFlags(saved.r11))
            && h[j + 1].t.blocked == h[i].t.blocked && h[j + 1].live == h[i].live
  {
    hide Inv, Step;
    var n := |h[i].live|;
    assert Step(h[i], ops[i]).value == h[i + 1];
    SyscallPushes(h[i], ops[i].ret, ops[i].writable);
    OuterStays(h, ops, i + 1, j, n + 1);
    OnlyReturnPops(h[j], ops[j]);
    RunKeeps(h, ops, j);
    ReturnRestores(h[j]);
    assert |h[j].live| == n + 1;
    assert h[j].live[n] == h[j].live[..n + 1][n] == h[i + 1].live[..n + 1][n];
    assert h[j].live[..n] == h[j].live[..n + 1][..n] == h[i + 1].live[..n + 1][..n] == h[i + 1].live[..n];
  }

  // ----- the manager's own form -----

  type Pid = int

  const SIG_BLOCK := 0
  const SIG_UNBLOCK := 1
  const SIG_SETMASK := 2

  /** Pending sets, masks and actions of all processes. */
  class SignalManager {
    var pending: map<Pid, SigSet>
    var blocked: map<Pid, SigSet>
    var actions: map<Pid, map<int, Action>>

    function GetPending(pid: Pid): (s: SigSet)
      reads this
    {
      if pid in pending then pending[pid] else {}
    }

    function GetProcmask(pid: Pid): (s: SigSet)
      reads this
    {
      if pid in blocked then blocked[pid] else {}
    }

    function GetActions(pid: Pid): (a: map<int, Action>)
      reads this
    {
      if pid in actions then actions[pid] else map[]
    }

    function GetAction(pid: Pid, sig: int): (a: Action)
      reads this
    {
      if 1 <= sig <= SIG_MAX && sig in GetActions(pid) then GetActions(pid)[sig] else DEFAULT_ACTION
    }

    /** No process blocks SIGKILL or SIGSTOP, or has an action for them. */
    ghost predicate Valid()
      reads this
    {
      && (forall pid :: pid in blocked ==> Blockable(blocked[pid]))
      && (forall pid, sig :: pid in actions && sig in actions[pid] ==>
         1 <= sig <= SIG_MAX && sig != SIGKILL && sig != SIGSTOP)
    }

    /** The part of a process that signals touch. */
    function View(pid: Pid, regs: Regs, mem: Frames): (t: Task)
      reads this
    {
      Task(regs, mem, GetProcmask(pid), GetPending(pid), GetActions(pid))
    }

    constructor ()
      ensures Valid() && forall pid :: GetProcmask(pid) == {} && GetPending(pid) == {}
    {
      pending, blocked, actions := map[], map[], map[];
    }

    /** Changes one process's mask; any other `how` changes no mask. */
    method UpdateProcmask(pid: Pid, how: int, newSet: SigSet) returns (r: Result<SigSet>)
      requires Valid()
      modifies this`blocked
      ensures Valid()
      ensures r == if how in {SIG_BLOCK, SIG_UNBLOCK, SIG_SETMASK} then Ok(old(GetProcmask(pid))) else Err(EINVAL)
      ensures GetProcmask(pid) ==
              if how == SIG_BLOCK then SetProcmask(old(GetProcmask(pid)), BlockMask, newSet)
              else if how == SIG_UNBLOCK then SetProcmask(old(GetProcmask(pid)), UnblockMask, newSet)
              else if how == SIG_SETMASK then SetProcmask(old(GetProcmask(pid)), SetMask, newSet)
              else old(GetProcmask(pid))
      ensures forall p :: p != pid ==> GetProcmask(p) == old(GetProcmask(p))
    {
      var effective := newSet - {SIGKILL, SIGSTOP};
      var current := GetProcmask(pid);
      blocked := blocked[pid := current];
      if how == SIG_BLOCK {
        blocked := blocked[pid := current + effective];
      } else if how == SIG_UNBLOCK {
        blocked := blocked[pid := current - effective];
      } else if how == SIG_SETMASK {
        blocked := blocked[pid := effective];
      } else {
        return Err(EINVAL);
      }
      r := Ok(current);
    }

    /** Registers an action; SIGKILL, SIGSTOP and unknown signals are refused. */
    method SetAction(pid: Pid, sig: int, act: Action) returns (r: Result<Action>)
      requires Valid()
      modifies this`actions
      ensures Valid()
      ensures !(1 <= sig <= SIG_MAX) || sig == SIGKILL || sig == SIGSTOP ==> r == Err(EINVAL) && actions == old(actions)
      ensures 1 <= sig <= SIG_MAX && sig != SIGKILL && sig != SIGSTOP ==>
        && r == Ok(old(GetAction(pid, sig))) && GetAction(pid, sig) == act
        && forall p, s :: p != pid || s != sig ==> GetAction(p, s) == old(GetAction(p, s))
    {
      if !(1 <= sig <= SIG_MAX) || sig == SIGKILL || sig == SIGSTOP {
        return Err(EINVAL);
      }
      r := Ok(GetAction(pid, sig));
      actions := actions[pid := GetActions(pid)[sig := act]];
    }

    /** Marks a signal pending for a process of the process table and wakes it if it is blocked. */
    method SendSignal(pid: Pid, sig: int, cpu: Scheduler.CpuScheduler) returns (r: Result<()>)
      requires cpu.Valid()
      modifies this`pending, cpu
      ensures r == if pid <= 0 || !(1 <= sig <= SIG_MAX) then Err(EINVAL) else if pid !in cpu.table then Err(ESRCH)
        else Ok(())
      ensures GetPending(pid) == if r.Ok? then old(GetPending(pid)) + {sig} else old(GetPending(pid))
      ensures forall p :: p != pid ==> GetPending(p) == old(GetPending(p))
      ensures cpu.Valid()
      ensures cpu.Value() == if r.Ok? then Scheduler.Wake(old(cpu.Value()), [pid]) else old(cpu.Value())
    {
      if pid <= 0 || !(1 <= sig <= SIG_MAX) {
        return Err(EINVAL);
      }
      if pid !in cpu.table {
        return Err(ESRCH);
      }
      pending := pending[pid := GetPending(pid) + {sig}];
      cpu.WakeTasks([pid]);
      r := Ok(());
    }

    method ClearPending(pid: Pid, sig: int)
      requires 1 <= sig <= SIG_MAX
      modifies this`pending
      ensures GetPending(pid) == old(GetPending(pid)) - {sig}
      ensures forall p :: p != pid ==> GetPending(p) == old(GetPending(p))
    {
      if pid in pending {
        pending := pending[pid := pending[pid] - {sig}];
      }
    }

    /** Scans the pending, unblocked signals upwards for one to handle. */
    method NextUnblockedSignal(pid: Pid, ghost regs: Regs, ghost mem: Frames) returns (r: Option<(int, Action, SigSet)>)
      requires Valid()
      modifies this`pending
      ensures var n := NextFrom(old(View(pid, regs, mem)), 1);
              && GetPending(pid) == n.0
              && r == if n.1.Some? then Some((n.1.value, GetAction(pid, n.1.value), GetProcmask(pid))) else None
      ensures forall p :: p != pid ==> GetPending(p) == old(GetPending(p))
    {
      hide Ignored, DefaultStop;
      ghost var t0 := View(pid, regs, mem);
      var mask := GetProcmask(pid);
      var unblocked := GetPending(pid) - mask;
      if unblocked == {} {
        NothingToDo(t0, 1);
        return None;
      }
      var sig := 1;
      while sig <= SIG_MAX
        invariant 1 <= sig <= SIG_MAX + 1 && mask == GetProcmask(pid)
        invariant NextFrom(t0, 1) == NextFrom(View(pid, regs, mem), sig)
        invariant forall s :: s >= sig ==> (s in unblocked <==> s in GetPending(pid) && s !in mask)
        invariant forall p :: p != pid ==> GetPending(p) == old(GetPending(p))
        decreases SIG_MAX + 1 - sig
      {
        if sig in unblocked {
          var action := GetAction(pid, sig);
          if Ignored(action, sig) {
            ClearPending(pid, sig);
          } else if !(action.handler == SIG_DFL && DefaultStop(sig)) {
            ClearPending(pid, sig);
            return Some((sig, action, mask));
          }
        }
        sig := sig + 1;
      }
      r := None;
    }
  }

  lemma {:induction false} NothingToDo(t: Task, sig: int)
    requires t.pending - t.blocked == {}
    ensures NextFrom(t, sig) == (t.pending, None)
    decreases SIG_MAX + 1 - sig
  {
    if sig <= SIG_MAX {
      assert sig !in t.pending - t.blocked;
      NothingToDo(t, sig + 1);
    }
  }
}
