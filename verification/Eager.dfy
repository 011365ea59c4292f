/** Whole runs: the kernel, which shares pages until they are written, against a machine
    in which fork copies every page at once and memory exists as soon as it is mapped. */
module Eager {
  import opened Common
  import opened FreeRuns
  import opened Phys
  import opened PageAlloc
  import opened Sv32
  import opened Vm
  import opened Vma
  import opened Cow
  import opened Image
  import opened ProcTable
  import opened Kernel

  /** What happens: instructions and page faults of the current process, its calls, and
      the decisions of the scheduler and of the idle loop. */
  datatype Event =
    | Load(page: nat, word: nat)
    | Store(page: nat, word: nat, value: Word)
    | PageFault(addr: Addr, access: nat)
    | MapMemory(hint: Addr, len: Addr, bits: nat, fixed: bool)
    | UnmapMemory(start: Addr, len: Addr)
    | ForkProcess(hasFrame: bool, sp: nat)
    | ExecProgram(entry: nat, argvOk: bool)
    | ExitProcess(status: int, next: nat)
    | WaitChild(pid: int)
    | ReapAll
    | Yield(next: nat)
    | Spawn

  /** What came of it: a word, an address, a slot, the slots reaped, a range emptied by a
      MAP_FIXED that then failed, success, a refusal, or no memory left for it. */
  datatype Answer =
    | Value(v: Word)
    | At(addr: nat)
    | Slot(i: nat)
    | Gone(slots: set<nat>)
    | Emptied
    | Done
    | Failed
    | NoMemory

  /** The eager machine: one private memory per slot, the slots in use, and the memory
      that nobody writes, in which the program lies. */
  datatype Machine = Machine(views: seq<map<nat, Cell>>, used: set<nat>, current: nat, program: map<nat, Frame>) {
    ghost predicate Ok() { |views| == PROC_MAX && current < PROC_MAX }

    /** No process has a page with W alone. */
    ghost predicate Tame() { forall i | 0 <= i < |views| :: NoneWriteOnly(views[i]) }

    ghost function Mine(): map<nat, Cell>
      requires Ok()
    {
      views[current]
    }

    ghost function Becomes(v: map<nat, Cell>): Machine
      requires Ok()
    {
      this.(views := views[current := v])
    }

    /** The current process has the page with what an access needs. */
    ghost predicate Has(page: nat, need: Prot)
      requires Ok()
    {
      page in Mine() && Vma.Allows(Mine()[page].prot, need)
    }

    /** A user process; all of them have a stack, and the others have no memory. */
    ghost predicate IsUser()
      requires Ok()
    {
      STACK_PAGE in Mine()
    }

    ghost predicate NoSlot() { forall i | 0 <= i < PROC_MAX :: i in used }

    /** What can be refused: accesses that the process may not make, a fork or an exec with
        bad arguments, and a new process without a slot. The calls that depend on the area
        table or on the state of other processes can be refused at any time. */
    ghost predicate Refuses(e: Event)
      requires Ok()
    {
      match e
      case Load(page, word) => word >= WORDS || !Has(page, Prot(true, false, false))
      case Store(page, word, value) => word >= WORDS || !Has(page, READ_WRITE)
      case PageFault(addr, access) => access !in {1, 2, 4} || !Has(addr / 4096, NeedOf(access))
      case ForkProcess(hasFrame, sp) => !IsUser() || !hasFrame || !(STACK_BASE <= sp <= STACK_TOP) || NoSlot()
      case ExecProgram(entry, argvOk) => !IsUser() || entry == 0 || !argvOk
      case Spawn => NoSlot()
      case ReapAll => false
      case _ => true
    }

    /** The answers the eager machine can give: a load gives the word stored there last,
        and outside the user slots the word of the program. */
    ghost predicate Allows(e: Event, a: Answer)
      requires Ok()
    {
      if a == Failed then Refuses(e)
      else if a == NoMemory then e.Load? || e.Store? || e.PageFault? || e.ForkProcess? || e.Spawn?
      else
        match e
        case Load(page, word) =>
          && a.Value? && word < WORDS && (Has(page, Prot(true, false, false)) || !Region(page))
          && (Region(page) ==> a.v == Mine()[page].data[word])
          && (!Region(page) && page in program ==> a.v == program[page][word])
        case Store(page, word, value) => word < WORDS && Has(page, READ_WRITE) && a == Done
        case PageFault(addr, access) =>
          a == Done && access in {1, 2, 4} && (Has(addr / 4096, NeedOf(access)) || !Region(addr / 4096))
        case MapMemory(hint, len, bits, fixed) =>
          if fixed then a == At(hint) || a == Emptied
          else a.At? && MMAP_BASE <= a.addr && a.addr + PageCeil(len) <= MMAP_END
               && forall p | p in Mine() :: !(a.addr <= Bytes(p) < a.addr + PageCeil(len))
        case UnmapMemory(start, len) => a == Done && MMAP_BASE <= start && start + PageCeil(len) <= MMAP_END
        case ForkProcess(hasFrame, sp) =>
          IsUser() && hasFrame && STACK_BASE <= sp <= STACK_TOP && a.Slot? && NewSlot(a.i)
        case ExecProgram(entry, argvOk) => IsUser() && a == Done && entry != 0 && argvOk
        case ExitProcess(status, next) => a == Done && next < PROC_MAX && next in used && next != current
        case WaitChild(pid) => a.Slot? && a.i < PROC_MAX && a.i in used && a.i != current
        case ReapAll => a.Gone? && a.slots <= used && current !in a.slots && 0 !in a.slots
        case Yield(next) => a == Done && next < PROC_MAX && next in used
        case Spawn => a.Slot? && NewSlot(a.i)
    }

    ghost predicate NewSlot(i: nat) requires Ok() { i < PROC_MAX && i !in used && views[i] == map[] }

    ghost function Step(e: Event, a: Answer): (m: Machine)
      requires Ok() && Allows(e, a)
      ensures m.Ok()
    {
      if a == Failed || a == NoMemory then this
      else
        match e
        case Load(page, word) => this
        case Store(page, word, value) => Becomes(Stored(Mine(), page, word, value))
        case PageFault(addr, access) => this
        case MapMemory(hint, len, bits, fixed) =>
          if a == Emptied then Becomes(Without(Mine(), hint, hint + PageCeil(len)))
          else Becomes(WithZeros(Mine(), a.addr, a.addr + PageCeil(len), ProtOfBits(bits)))
        case UnmapMemory(start, len) => Becomes(Without(Mine(), start, start + PageCeil(len)))
        case ForkProcess(hasFrame, sp) => this.(views := views[a.i := Mine()], used := used + {a.i})
        case ExecProgram(entry, argvOk) => Becomes(StackOnly(Mine()))
        case ExitProcess(status, next) => this.(current := next)
        case WaitChild(pid) => this.(views := views[a.i := map[]], used := used - {a.i})
        case ReapAll =>
          this.(views := seq(PROC_MAX, i requires 0 <= i < PROC_MAX => if i in a.slots then map[] else views[i]),
                used := used - a.slots)
        case Yield(next) => this.(current := next)
        case Spawn => this.(views := views[a.i := FreshStack()], used := used + {a.i})
    }
  }

  ghost predicate NoneWriteOnly(v: map<nat, Cell>) {
    forall p | p in v && v[p].prot.w :: v[p].prot.r || v[p].prot.x
  }

  /** Not an mmap with W alone. */
  predicate Harmless(e: Event) { e.MapMemory? ==> var prot := ProtOfBits(e.bits); prot.w ==> prot.r || prot.x }

  /** Only an mmap with W alone makes a page with W alone. */
  lemma StaysTame(m: Machine, e: Event, a: Answer)
    requires m.Ok() && m.Allows(e, a)
    ensures m.Tame() && Harmless(e) ==> m.Step(e, a).Tame()
  {
    if m.Tame() && Harmless(e) && a != Failed && a != NoMemory {
      assert NoneWriteOnly(m.Mine());
      match e
      case Store(page, word, value) => assert NoneWriteOnly(Stored(m.Mine(), page, word, value));
      case ExecProgram(entry, argvOk) => assert NoneWriteOnly(StackOnly(m.Mine()));
      case MapMemory(hint, len, bits, fixed) =>
        forall lo, hi, prot: Prot | prot == ProtOfBits(bits) ensures NoneWriteOnly(WithZeros(m.Mine(), lo, hi, prot)) {}
      case _ =>
    }
  }

  /** Every answer is one the eager machine gives. */
  ghost predicate Honest(m: Machine, events: seq<Event>, answers: seq<Answer>)
    requires m.Ok() && |answers| == |events|
    decreases |events|
  {
    events == [] || (m.Allows(events[0], answers[0])
                     && Honest(m.Step(events[0], answers[0]), events[1..], answers[1..]))
  }

  ghost function After(m: Machine, events: seq<Event>, answers: seq<Answer>): (m': Machine)
    requires m.Ok() && |answers| == |events| && Honest(m, events, answers)
    ensures m'.Ok()
    decreases |events|
  {
    if events == [] then m else After(m.Step(events[0], answers[0]), events[1..], answers[1..])
  }

  lemma {:induction false} OneMore(m: Machine, events: seq<Event>, answers: seq<Answer>, e: Event, a: Answer)
    requires m.Ok() && |answers| == |events| && Honest(m, events, answers) && After(m, events, answers).Allows(e, a)
    ensures Honest(m, events + [e], answers + [a])
    ensures After(m, events + [e], answers + [a]) == After(m, events, answers).Step(e, a)
    decreases |events|
  {
    var es, as' := events + [e], answers + [a];
    if events == [] {
      assert es[1..] == [] && as'[1..] == [];
    } else {
      OneMore(m.Step(events[0], answers[0]), events[1..], answers[1..], e, a);
      assert es[1..] == events[1..] + [e] && as'[1..] == answers[1..] + [a];
    }
  }

  /** What every process sees. */
  ghost function Views(w: World): (v: seq<map<nat, Cell>>)
    requires |w.areas| == PROC_MAX && |w.spaces| == PROC_MAX
    ensures |v| == PROC_MAX && forall i | 0 <= i < PROC_MAX :: v[i] == View(w, i)
  {
    seq(PROC_MAX, i requires 0 <= i < PROC_MAX => View(w, i))
  }

  /** The slots in use. */
  ghost function InUse(procs: seq<Process>): set<nat> {
    set i: nat | i < |procs| && procs[i].state != Unused
  }

  lemma UseKept(procs: seq<Process>, procs': seq<Process>)
    requires |procs'| == |procs| && forall i | 0 <= i < |procs| ::
               procs'[i].state == Unused <==> procs[i].state == Unused
    ensures InUse(procs') == InUse(procs)
  {}

  lemma SlotTaken(procs: seq<Process>, procs': seq<Process>, c: nat)
    requires c < |procs| == |procs'| && procs' == procs[c := procs'[c]] && procs'[c].state != Unused
    ensures InUse(procs') == InUse(procs) + {c}
  {
    assert forall i: nat | i < |procs| :: i in InUse(procs') <==> i in InUse(procs) + {c};
  }

  lemma SlotGone(procs: seq<Process>, procs': seq<Process>, c: nat)
    requires c < |procs| && procs' == procs[c := UNUSED]
    ensures InUse(procs') == InUse(procs) - {c}
  {
    assert forall i: nat | i < |procs| :: i in InUse(procs') <==> i in InUse(procs) - {c};
  }

  /** The kernel as the eager machine it imitates. */
  ghost function Seen(k: Kernel): (m: Machine)
    reads k`procs, k`spaces, k`current, k.vm`roots, k.vm`own, k.vm`abandoned, k.vm.alloc`refs, k.vm.ram
    requires |k.procs| == PROC_MAX && |k.spaces| == PROC_MAX && k.current < PROC_MAX
    ensures m.Ok()
  {
    Machine(Views(k.Snapshot()), InUse(k.procs), k.current, k.Program())
  }

  lemma OneViewChanged(w: World, w': World, c: nat)
    requires OthersSame(w, w', c) && c < PROC_MAX
    requires |w.areas| == PROC_MAX && |w.spaces| == PROC_MAX && |w'.areas| == PROC_MAX && |w'.spaces| == PROC_MAX
    ensures Views(w') == Views(w)[c := View(w', c)]
  {
    forall i | 0 <= i < PROC_MAX && i != c ensures View(w', i) == View(w, i) { assert SameView(w, w', i); }
  }

  lemma NoViewChanged(w: World, w': World)
    requires forall i | 0 <= i < PROC_MAX :: SameView(w, w', i)
    requires |w.areas| == PROC_MAX && |w.spaces| == PROC_MAX && |w'.areas| == PROC_MAX && |w'.spaces| == PROC_MAX
    ensures Views(w') == Views(w)
  {
    forall i | 0 <= i < PROC_MAX ensures View(w', i) == View(w, i) { assert SameView(w, w', i); }
  }

  /** The kernel is a valid state, and this is what it imitates. */
  ghost predicate Imitates(k: Kernel, m: Machine)
    reads k`procs, k`current, k`spaces, k.vm, k.vm.ram, k.vm.alloc, k.vm.alloc.runs, k.vm.alloc.metas
  {
    && k.Valid() && |k.procs| == PROC_MAX && |k.spaces| == PROC_MAX
    && Views(k.Snapshot()) == m.views && InUse(k.procs) == m.used && k.current == m.current && k.Program() == m.program
  }

  /** What a process sees with a permission it may access with it. */
  lemma SeenIsAllowed(k: Kernel, page: nat, access: nat)
    requires k.Valid() && access in {1, 2, 4}
    ensures |k.spaces| == PROC_MAX && |k.procs| == PROC_MAX
    ensures Region(page) ==> (k.FaultAllowed(page, access) <==>
              var v := View(k.Snapshot(), k.current); page in v && Vma.Allows(v[page].prot, NeedOf(access)))
    ensures page in View(k.Snapshot(), k.current) ==>
              Region(page) && k.Granted(page) == Some(View(k.Snapshot(), k.current)[page].prot)
  {
    hide Kernel.Valid;
    k.SharingFacts();
    k.ProcFacts(k.current);
    k.UserFacts();
  }

  /** The user processes are those with a stack. */
  lemma UserHasStack(k: Kernel)
    requires k.Valid()
    ensures |k.spaces| == PROC_MAX && |k.procs| == PROC_MAX && k.current < PROC_MAX
    ensures k.procs[k.current].isUser <==> STACK_PAGE in View(k.Snapshot(), k.current)
    ensures k.procs[k.current].isUser ==>
              forall sp: nat :: SpOk(k.procs[k.current], sp) <==> STACK_BASE <= sp <= STACK_TOP
  {
    hide Kernel.Valid;
    k.SharingFacts();
    k.ProcFacts(k.current);
    k.UserFacts();
    StackBounds();
  }

  method OnLoad(k: Kernel, page: nat, word: nat, ghost m: Machine) returns (ghost a: Answer)
    requires Imitates(k, m)
    modifies k`spaces, k.vm`own, k.vm.alloc, k.vm.alloc.repr, k.vm.ram
    ensures fresh(k.vm.alloc.repr - old(k.vm.alloc.repr))
    ensures Spared(old(k.vm.alloc.Level()), old(k.Lost()), k.vm.alloc.Level(), k.Lost())
    ensures m.Ok() && m.Allows(Load(page, word), a) && Imitates(k, m.Step(Load(page, word), a))
    ensures a == NoMemory ==> old(k.vm.alloc.LowMemory())
  {
    hide Kernel.Valid, View, SameView, Kernel.Lost, Sharers, SharingOk, Inv, PageAllocator.LowMemory,
      Kernel.Snapshot, PageAllocator.Level, ProtAt;
    k.SharingFacts();
    SeenIsAllowed(k, page, 1);
    if !k.procs[k.current].isUser || page >= PAGES || word >= WORDS {
      return Failed;
    }
    k.FaultPage(0);
    var end, v := k.UserLoad(page, word);
    k.SharingFacts();
    NoViewChanged(old(k.Snapshot()), k.Snapshot());
    a := if end == Permitted then Value(v) else if k.FaultAllowed(page, 1) then NoMemory else Failed;
  }

  method OnStore(k: Kernel, page: nat, word: nat, value: Word, ghost m: Machine) returns (ghost a: Answer)
    requires Imitates(k, m)
    modifies k`spaces, k.vm`own, k.vm.alloc, k.vm.alloc.repr, k.vm.ram
    ensures fresh(k.vm.alloc.repr - old(k.vm.alloc.repr))
    ensures Spared(old(k.vm.alloc.Level()), old(k.Lost()), k.vm.alloc.Level(), k.Lost())
    ensures m.Ok() && m.Allows(Store(page, word, value), a) && Imitates(k, m.Step(Store(page, word, value), a))
    ensures a == NoMemory ==> old(k.vm.alloc.LowMemory())
  {
    hide Kernel.Valid, View, SameView, OthersSame, Views, AreasOf, IsChild, RootFromSatp, Process.Live, ProtAt,
      Stored, Kernel.Lost, Sharers, SharingOk, Inv, PageAllocator.LowMemory, Kernel.Snapshot, PageAllocator.Level,
      PageCeil;
    k.SharingFacts();
    SeenIsAllowed(k, page, 2);
    if !k.procs[k.current].isUser || page >= PAGES || word >= WORDS {
      return Failed;
    }
    k.FaultPage(0);
    var end := k.UserStore(page, word, value);
    k.SharingFacts();
    OneViewChanged(old(k.Snapshot()), k.Snapshot(), k.current);
    a := if end == Permitted then Done
         else if end == Refused && Region(page) && k.FaultAllowed(page, 2) then NoMemory
         else Failed;
  }

  method OnFault(k: Kernel, addr: Addr, access: nat, ghost m: Machine) returns (ghost a: Answer)
    requires Imitates(k, m)
    modifies k`procs, k`current, k`spaces, k.vm`roots, k.vm`own, k.vm`abandoned, k.vm.alloc, k.vm.alloc.repr, k.vm.ram
    ensures fresh(k.vm.alloc.repr - old(k.vm.alloc.repr))
    ensures Spared(old(k.vm.alloc.Level()), old(k.Lost()), k.vm.alloc.Level(), k.Lost())
    ensures m.Ok() && m.Allows(PageFault(addr, access), a) && Imitates(k, m.Step(PageFault(addr, access), a))
    ensures a == NoMemory ==> old(k.vm.alloc.LowMemory())
  {
    hide Kernel.Valid, View, SameView, OthersSame, Views, AreasOf, IsChild, RootFromSatp, Process.Live, ProtAt,
      Kernel.Lost, Sharers, SharingOk, Inv, PageAllocator.LowMemory, Kernel.Snapshot;
    k.SharingFacts();
    if access in {1, 2, 4} {
      SeenIsAllowed(k, addr / 4096, access);
    }
    var rc := k.HandleUserPageFault(addr, access);
    k.SharingFacts();
    NoViewChanged(old(k.Snapshot()), k.Snapshot());
    a := if rc == 0 then Done else if k.FaultAllowed(addr / 4096, access) then NoMemory else Failed;
  }

  method OnMap(k: Kernel, hint: Addr, len: Addr, bits: nat, fixed: bool, ghost m: Machine) returns (ghost a: Answer)
    requires Imitates(k, m)
    modifies k`procs, k`current, k`spaces, k.vm`roots, k.vm`own, k.vm`abandoned, k.vm.alloc, k.vm.alloc.repr, k.vm.ram
    ensures fresh(k.vm.alloc.repr - old(k.vm.alloc.repr))
    ensures Spared(old(k.vm.alloc.Level()), old(k.Lost()), k.vm.alloc.Level(), k.Lost())
    ensures m.Ok() && m.Allows(MapMemory(hint, len, bits, fixed), a)
            && Imitates(k, m.Step(MapMemory(hint, len, bits, fixed), a))
  {
    hide Kernel.Valid, View, SameView, OthersSame, Views, AreasOf, IsChild, RootFromSatp, Process.Live, ProtAt,
      WithZeros, Without, FullAfterCut, Fits, MmapAccepts, MunmapAccepts, IsFilled, Kernel.Lost, Sharers,
      SharingOk, Inv, Machine.Step, Machine.Allows, Machine.Refuses, PageCeil, ProtOfBits, Kernel.HeapOk,
      Kernel.Linked, PageTables.TreesOk, PageTables.Tables, ProcsOk;
    k.SharingFacts();
    ghost var me, w := k.procs[k.current], k.Snapshot();
    var ret := k.Mmap(hint, len, bits, fixed);
    k.SharingFacts();
    UseKept(old(k.procs), k.procs);
    OneViewChanged(w, k.Snapshot(), k.current);
    if ret != -1 {
      a := At(ret);
      if !fixed {
        FreeIsUnseen(w, k.current, ret, ret + PageCeil(len));
      }
    } else if fixed && 0 < bits < 8 && MunmapAccepts(me, hint, PageCeil(len)) {
      a := Emptied;
    } else {
      a := Failed;
    }
    Mapped(m, hint, len, bits, fixed, a);
  }

  lemma Mapped(m: Machine, hint: Addr, len: Addr, bits: nat, fixed: bool, a: Answer)
    requires m.Ok() && (a == Failed || a.At? || (fixed && a == Emptied))
    requires a.At? && fixed ==> a.addr == hint
    requires a.At? && !fixed ==> MMAP_BASE <= a.addr && a.addr + PageCeil(len) <= MMAP_END
    requires a.At? && !fixed ==> forall p | p in m.Mine() :: !(a.addr <= Bytes(p) < a.addr + PageCeil(len))
    ensures m.Allows(MapMemory(hint, len, bits, fixed), a)
    ensures m.Step(MapMemory(hint, len, bits, fixed), a)
            == if a == Failed then m
               else if a == Emptied then m.Becomes(Without(m.Mine(), hint, hint + PageCeil(len)))
               else m.Becomes(WithZeros(m.Mine(), a.addr, a.addr + PageCeil(len), ProtOfBits(bits)))
  {}

  lemma FreeIsUnseen(w: World, i: nat, lo: nat, hi: nat)
    requires Inv(w) && i < PROC_MAX && lo <= hi && Fits(w.areas[i], lo, hi - lo)
    ensures forall p | p in View(w, i) :: !(lo <= Bytes(p) < hi)
  {
    NoneWhereFree(w.areas[i], lo, hi);
  }

  method OnUnmap(k: Kernel, start: Addr, len: Addr, ghost m: Machine) returns (a: Answer)
    requires Imitates(k, m)
    modifies k`procs, k`current, k`spaces, k.vm`roots, k.vm`own, k.vm`abandoned, k.vm.alloc, k.vm.alloc.repr, k.vm.ram
    ensures fresh(k.vm.alloc.repr - old(k.vm.alloc.repr))
    ensures Spared(old(k.vm.alloc.Level()), old(k.Lost()), k.vm.alloc.Level(), k.Lost())
    ensures m.Ok() && m.Allows(UnmapMemory(start, len), a) && Imitates(k, m.Step(UnmapMemory(start, len), a))
  {
    hide Kernel.Valid, View, SameView, OthersSame, Views, AreasOf, IsChild, RootFromSatp, Process.Live, ProtAt,
      Without, IsCut, FullAfterCut, Kernel.Lost, Sharers, SharingOk, Inv, Kernel.Snapshot, Spared, PageCeil,
      Machine.NewSlot;
    k.SharingFacts();
    var rc := k.Munmap(start, len);
    k.SharingFacts();
    UseKept(old(k.procs), k.procs);
    OneViewChanged(old(k.Snapshot()), k.Snapshot(), k.current);
    a := if rc == 0 then Done else Failed;
  }

  /** What a process does not see with W alone it does not have with W alone. */
  lemma SeenIsHad(k: Kernel)
    requires k.Valid()
    ensures |k.spaces| == PROC_MAX && |k.procs| == PROC_MAX
    ensures NoneWriteOnly(View(k.Snapshot(), k.current)) ==> NoWriteOnly(k.procs[k.current].vmas)
  {
    hide Kernel.Valid, VmasOk;
    k.SharingFacts();
    var vmas := k.procs[k.current].vmas;
    forall i | 0 <= i < |vmas| && vmas[i].used && vmas[i].prot.w
      ensures NoneWriteOnly(View(k.Snapshot(), k.current)) ==> vmas[i].prot.r || vmas[i].prot.x
    {
      k.WritableArea(i);
      k.PageOfArea(i, vmas[i].start);
      k.GrantedSeen(vmas[i].start / 4096);
    }
  }

  method OnFork(k: Kernel, hasFrame: bool, sp: nat, ghost m: Machine) returns (ghost a: Answer)
    requires Imitates(k, m)
    modifies k`procs, k`current, k`spaces, k.vm`roots, k.vm`own, k.vm`abandoned, k.vm.alloc, k.vm.alloc.repr, k.vm.ram
    ensures fresh(k.vm.alloc.repr - old(k.vm.alloc.repr))
    ensures Falls(old(k.vm.alloc.Level()), k.vm.alloc.Level())
    ensures m.Tame() ==> Spared(old(k.vm.alloc.Level()), old(k.Lost()), k.vm.alloc.Level(), k.Lost())
    ensures m.Ok() && m.Allows(ForkProcess(hasFrame, sp), a) && Imitates(k, m.Step(ForkProcess(hasFrame, sp), a))
    ensures a == NoMemory ==> k.vm.alloc.Level().room < 8192
  {
    hide Kernel.Valid, View, SameView, OthersSame, Views, AreasOf, RootFromSatp, Process.Live, ProtAt, Kernel.Lost,
      Sharers, SharingOk, Inv, SpOk, Machine.Step, Machine.Allows, Machine.Refuses, Machine.NewSlot,
      Kernel.Snapshot, Spared, NoWriteOnly, PageAllocator.Level;
    k.SharingFacts();
    UserHasStack(k);
    ghost var w, procs := k.Snapshot(), k.procs;
    UnusedSeesNothing(k);
    if m.Tame() {
      SeenIsHad(k);
    }
    var rc := k.Fork(hasFrame, sp);
    k.SharingFacts();
    if rc == -1 {
      NoViewChanged(w, k.Snapshot());
      a := if m.Refuses(ForkProcess(hasFrame, sp)) then Failed else NoMemory;
      NotForked(m, hasFrame, sp, a);
      return;
    }
    OneViewChanged(w, k.Snapshot(), rc - 1);
    SlotTaken(procs, k.procs, rc - 1);
    Forked(m, hasFrame, sp, rc - 1);
    return Slot(rc - 1);
  }

  lemma Forked(m: Machine, hasFrame: bool, sp: nat, c: nat)
    requires m.Ok() && m.IsUser() && hasFrame && STACK_BASE <= sp <= STACK_TOP && m.NewSlot(c)
    ensures m.Allows(ForkProcess(hasFrame, sp), Slot(c))
    ensures m.Step(ForkProcess(hasFrame, sp), Slot(c)) == m.(views := m.views[c := m.Mine()], used := m.used + {c})
  {}

  lemma NotForked(m: Machine, hasFrame: bool, sp: nat, a: Answer)
    requires m.Ok() && a == if m.Refuses(ForkProcess(hasFrame, sp)) then Failed else NoMemory
    ensures m.Allows(ForkProcess(hasFrame, sp), a) && m.Step(ForkProcess(hasFrame, sp), a) == m
    ensures a == NoMemory ==> m.IsUser() && hasFrame && STACK_BASE <= sp <= STACK_TOP && !m.NoSlot()
  {}

  lemma UnusedSeesNothing(k: Kernel)
    requires k.Valid()
    ensures |k.spaces| == PROC_MAX && |k.procs| == PROC_MAX
    ensures k.procs[k.current].state !in {Unused, Zombie}
    ensures forall i | 0 <= i < PROC_MAX && k.procs[i].state == Unused :: View(k.Snapshot(), i) == map[]
  {
    forall i | 0 <= i < PROC_MAX && k.procs[i].state == Unused ensures View(k.Snapshot(), i) == map[] {
      k.ProcFacts(i);
      NothingToSee(k.Snapshot(), i);
    }
  }

  method OnExec(k: Kernel, entry: nat, argvOk: bool, ghost m: Machine) returns (a: Answer)
    requires Imitates(k, m)
    modifies k`procs, k`current, k`spaces, k.vm`roots, k.vm`own, k.vm`abandoned, k.vm.alloc, k.vm.alloc.repr, k.vm.ram
    ensures fresh(k.vm.alloc.repr - old(k.vm.alloc.repr))
    ensures Spared(old(k.vm.alloc.Level()), old(k.Lost()), k.vm.alloc.Level(), k.Lost())
    ensures m.Ok() && m.Allows(ExecProgram(entry, argvOk), a) && Imitates(k, m.Step(ExecProgram(entry, argvOk), a))
  {
    hide Kernel.Valid, View, SameView, OthersSame, Views, AreasOf, IsChild, RootFromSatp, Process.Live, ProtAt,
      StackOnly, Kernel.Lost, Sharers, SharingOk, Inv;
    k.SharingFacts();
    UserHasStack(k);
    var rc := k.Exec(entry, argvOk);
    k.SharingFacts();
    UseKept(old(k.procs), k.procs);
    OneViewChanged(old(k.Snapshot()), k.Snapshot(), k.current);
    a := if rc == 0 then Done else Failed;
  }

  method OnExit(k: Kernel, status: int, next: nat, ghost m: Machine) returns (a: Answer)
    requires Imitates(k, m)
    modifies k`procs, k`current, k`spaces, k.vm`roots, k.vm`own, k.vm`abandoned, k.vm.alloc, k.vm.alloc.repr, k.vm.ram
    ensures fresh(k.vm.alloc.repr - old(k.vm.alloc.repr))
    ensures Spared(old(k.vm.alloc.Level()), old(k.Lost()), k.vm.alloc.Level(), k.Lost())
    ensures m.Ok() && m.Allows(ExitProcess(status, next), a) && Imitates(k, m.Step(ExitProcess(status, next), a))
  {
    hide Kernel.Valid, View, SameView, OthersSame, Views, AreasOf, IsChild, RootFromSatp, Process.Live, ProtAt,
      Kernel.Lost, Sharers, SharingOk, Inv, Kernel.HeapOk, Kernel.Linked, PageTables.TreesOk, Kernel.Snapshot;
    k.SharingFacts();
    UnusedSeesNothing(k);
    var rc := k.Exit(status, next);
    k.SharingFacts();
    UseKept(old(k.procs), k.procs);
    NoViewChanged(old(k.Snapshot()), k.Snapshot());
    a := if rc == 0 then Done else Failed;
  }

  method OnWait(k: Kernel, pid: int, ghost m: Machine) returns (ghost a: Answer)
    requires Imitates(k, m)
    modifies k`procs, k`current, k`spaces, k.vm`roots, k.vm`own, k.vm`abandoned, k.vm.alloc, k.vm.alloc.repr, k.vm.ram
    ensures fresh(k.vm.alloc.repr - old(k.vm.alloc.repr))
    ensures Spared(old(k.vm.alloc.Level()), old(k.Lost()), k.vm.alloc.Level(), k.Lost())
    ensures m.Ok() && m.Allows(WaitChild(pid), a) && Imitates(k, m.Step(WaitChild(pid), a))
  {
    hide Kernel.Valid, View, SameView, OthersSame, Views, AreasOf, IsChild, RootFromSatp, Process.Live, ProtAt,
      ChildOf, Kernel.Lost, Sharers, SharingOk, Inv, Kernel.Snapshot;
    k.SharingFacts();
    UnusedSeesNothing(k);
    ghost var w, procs, slot := k.Snapshot(), k.procs, 0;
    var hasChild, reaped, status;
    hasChild, reaped, status, slot := k.WaitPass(pid);
    k.SharingFacts();
    if slot == PROC_MAX {
      a := Failed;
    } else {
      OneViewChanged(w, k.Snapshot(), slot);
      SlotGone(procs, k.procs, slot);
      a := Slot(slot);
    }
  }

  method OnReapAll(k: Kernel, ghost m: Machine) returns (ghost a: Answer)
    requires Imitates(k, m)
    modifies k`procs, k`current, k`spaces, k.vm`roots, k.vm`own, k.vm`abandoned, k.vm.alloc, k.vm.alloc.repr, k.vm.ram
    ensures fresh(k.vm.alloc.repr - old(k.vm.alloc.repr))
    ensures Spared(old(k.vm.alloc.Level()), old(k.Lost()), k.vm.alloc.Level(), k.Lost())
    ensures m.Ok() && m.Allows(ReapAll, a) && Imitates(k, m.Step(ReapAll, a))
  {
    hide Kernel.Valid, View, SameView, OthersSame, Views, AreasOf, IsChild, RootFromSatp, Process.Live, ProtAt,
      Kernel.Lost, Sharers, SharingOk, Inv, Machine.Step, Machine.Allows, Machine.Refuses, Kernel.Snapshot;
    k.SharingFacts();
    UnusedSeesNothing(k);
    ghost var w, gone := k.Snapshot(), set i: nat | i < PROC_MAX && IsOrphan(k.procs, i);
    k.ReapOrphans();
    k.SharingFacts();
    a := Gone(gone);
    ManyViewsGone(w, k.Snapshot(), gone);
    assert InUse(k.procs) == m.used - gone;
    Reaped(m, gone);
  }

  lemma Reaped(m: Machine, gone: set<nat>)
    requires m.Ok() && gone <= m.used && m.current !in gone && 0 !in gone
    ensures m.Allows(ReapAll, Gone(gone))
    ensures m.Step(ReapAll, Gone(gone)).used == m.used - gone && m.Step(ReapAll, Gone(gone)).current == m.current
    ensures m.Step(ReapAll, Gone(gone)).program == m.program
    ensures m.Step(ReapAll, Gone(gone)).views
            == seq(PROC_MAX, i requires 0 <= i < PROC_MAX => if i in gone then map[] else m.views[i])
  {}

  lemma ManyViewsGone(w: World, w': World, gone: set<nat>)
    requires |w.areas| == PROC_MAX && |w.spaces| == PROC_MAX && |w'.areas| == PROC_MAX && |w'.spaces| == PROC_MAX
    requires forall i | 0 <= i < PROC_MAX :: if i in gone then View(w', i) == map[] else SameView(w, w', i)
    ensures Views(w') == seq(PROC_MAX, i requires 0 <= i < PROC_MAX => if i in gone then map[] else Views(w)[i])
  {
    forall i | 0 <= i < PROC_MAX && i !in gone ensures View(w', i) == View(w, i) { assert SameView(w, w', i); }
  }

  method OnYield(k: Kernel, next: nat, ghost m: Machine) returns (a: Answer)
    requires Imitates(k, m)
    modifies k`procs, k`current, k`spaces, k.vm`roots, k.vm`own, k.vm`abandoned, k.vm.alloc, k.vm.alloc.repr, k.vm.ram
    ensures fresh(k.vm.alloc.repr - old(k.vm.alloc.repr))
    ensures Spared(old(k.vm.alloc.Level()), old(k.Lost()), k.vm.alloc.Level(), k.Lost())
    ensures m.Ok() && m.Allows(Yield(next), a) && Imitates(k, m.Step(Yield(next), a))
  {
    hide Kernel.Valid, View, SameView, OthersSame, Views, AreasOf, IsChild, RootFromSatp, Process.Live, ProtAt,
      Kernel.Lost, Sharers, SharingOk, Inv, Machine.Step, Machine.Allows, Machine.Refuses;
    k.SharingFacts();
    var rc := k.Switch(next);
    k.SharingFacts();
    a := if rc == 0 then Done else Failed;
    Switched(m, next, a);
  }

  lemma Switched(m: Machine, next: nat, a: Answer)
    requires m.Ok() && (a == Failed || (a == Done && next < PROC_MAX && next in m.used))
    ensures m.Allows(Yield(next), a) && m.Step(Yield(next), a) == if a == Failed then m else m.(current := next)
  {}

  method OnSpawn(k: Kernel, ghost m: Machine) returns (ghost a: Answer)
    requires Imitates(k, m)
    modifies k`procs, k`current, k`spaces, k.vm`roots, k.vm`own, k.vm`abandoned, k.vm.alloc, k.vm.alloc.repr, k.vm.ram
    ensures fresh(k.vm.alloc.repr - old(k.vm.alloc.repr))
    ensures Spared(old(k.vm.alloc.Level()), old(k.Lost()), k.vm.alloc.Level(), k.Lost())
    ensures m.Ok() && m.Allows(Spawn, a) && Imitates(k, m.Step(Spawn, a))
    ensures a == NoMemory ==> k.vm.alloc.Level().room < 8192
  {
    hide Kernel.Valid, View, SameView, OthersSame, Views, AreasOf, IsChild, RootFromSatp, Process.Live, ProtAt,
      FreshStack, Kernel.Lost, Sharers, SharingOk, Inv, Kernel.Snapshot, Spared, PageAllocator.Level;
    k.SharingFacts();
    ghost var w, procs := k.Snapshot(), k.procs;
    UnusedSeesNothing(k);
    var c := k.CreateUserProcess();
    k.SharingFacts();
    if c == PROC_MAX {
      NoViewChanged(w, k.Snapshot());
      return if m.Refuses(Spawn) then Failed else NoMemory;
    }
    OneViewChanged(w, k.Snapshot(), c);
    SlotTaken(procs, k.procs, c);
    return Slot(c);
  }

  method Happen(k: Kernel, e: Event, ghost m: Machine) returns (ghost a: Answer)
    requires Imitates(k, m)
    modifies k`procs, k`current, k`spaces, k.vm`roots, k.vm`own, k.vm`abandoned, k.vm.alloc, k.vm.alloc.repr, k.vm.ram
    ensures fresh(k.vm.alloc.repr - old(k.vm.alloc.repr))
    ensures Falls(old(k.vm.alloc.Level()), k.vm.alloc.Level())
    ensures m.Tame() ==> Spared(old(k.vm.alloc.Level()), old(k.Lost()), k.vm.alloc.Level(), k.Lost())
    ensures m.Ok() && m.Allows(e, a) && Imitates(k, m.Step(e, a))
    ensures a == NoMemory ==> if e.ForkProcess? || e.Spawn? then k.vm.alloc.Level().room < 8192
                              else old(k.vm.alloc.LowMemory())
  {
    hide Imitates, Machine.Step, Machine.Allows, Kernel.Lost, Sharers, SharingOk, Inv, Machine.Tame,
      PageAllocator.LowMemory;
    match e {
      case Load(page, word) => a := OnLoad(k, page, word, m);
      case Store(page, word, value) => a := OnStore(k, page, word, value, m);
      case PageFault(addr, access) => a := OnFault(k, addr, access, m);
      case MapMemory(hint, len, bits, fixed) => a := OnMap(k, hint, len, bits, fixed, m);
      case UnmapMemory(start, len) => a := OnUnmap(k, start, len, m);
      case ForkProcess(hasFrame, sp) => a := OnFork(k, hasFrame, sp, m);
      case ExecProgram(entry, argvOk) => a := OnExec(k, entry, argvOk, m);
      case ExitProcess(status, next) => a := OnExit(k, status, next, m);
      case WaitChild(pid) => a := OnWait(k, pid, m);
      case ReapAll => a := OnReapAll(k, m);
      case Yield(next) => a := OnYield(k, next, m);
      case Spawn => a := OnSpawn(k, m);
    }
    WantsMemory(m, e, a);
  }

  lemma WantsMemory(m: Machine, e: Event, a: Answer)
    requires m.Ok() && m.Allows(e, a)
    ensures a == NoMemory ==> e.Load? || e.Store? || e.PageFault? || e.ForkProcess? || e.Spawn?
  {}

  /** Each load, store or fault that found no memory came when at most one page was left. */
  ghost predicate Excused(events: seq<Event>, answers: seq<Answer>, supplies: seq<Supply>)
    requires |answers| == |events| == |supplies| - 1
  {
    forall i | 0 <= i < |events| && answers[i] == NoMemory ::
      events[i].ForkProcess? || events[i].Spawn? || supplies[i].OneAtMost()
  }

  /** Copy-on-write refines eager copying: over every run each load gives, and every
      process always sees, exactly what the machine that copies eagerly has there. */
  method Run(k: Kernel, events: seq<Event>) returns (ghost answers: seq<Answer>, ghost supplies: seq<Supply>)
    requires k.Valid()
    modifies k`procs, k`current, k`spaces, k.vm`roots, k.vm`own, k.vm`abandoned, k.vm.alloc, k.vm.alloc.repr, k.vm.ram
    ensures fresh(k.vm.alloc.repr - old(k.vm.alloc.repr))
    ensures k.Valid() && |answers| == |events|
    ensures Honest(old(Seen(k)), events, answers) && Seen(k) == After(old(Seen(k)), events, answers)
    ensures old(Seen(k)).Tame() && (forall i | 0 <= i < |events| :: Harmless(events[i])) ==>
              Spared(old(k.vm.alloc.Level()), old(k.Lost()), k.vm.alloc.Level(), k.Lost())
    ensures NoMemory in answers ==> k.vm.alloc.Level().room < 8192
    ensures |supplies| == |events| + 1 && Excused(events, answers, supplies)
    ensures supplies[0] == old(k.vm.alloc.Left()) && supplies[|events|] == k.vm.alloc.Left()
  {
    hide Kernel.Valid, View, Machine.Step, Machine.Allows, Honest, After, Kernel.Lost, Sharers, SharingOk, Inv,
      Machine.Tame, Excused, PageAllocator.LowMemory, Supply.OneAtMost, Imitates, Seen, Views, Kernel.Snapshot;
    Imitated(k);
    ghost var m0 := Seen(k);
    ghost var m := m0;
    answers, supplies := [], [k.vm.alloc.Left()];
    NoEvents(m0, k.vm.alloc.Left());
    assert events[..0] == [];
    var i := 0;
    while i < |events|
      invariant 0 <= i <= |events| && |answers| == i && Imitates(k, m) && fresh(k.vm.alloc.repr - old(k.vm.alloc.repr))
      invariant m0.Tame() && (forall j | 0 <= j < i :: Harmless(events[j])) ==>
                  m.Tame() && Spared(old(k.vm.alloc.Level()), old(k.Lost()), k.vm.alloc.Level(), k.Lost())
      invariant NoMemory in answers ==> k.vm.alloc.Level().room < 8192
      invariant |supplies| == i + 1 && supplies[0] == old(k.vm.alloc.Left()) && supplies[i] == k.vm.alloc.Left()
      invariant Excused(events[..i], answers, supplies)
      invariant m0.Ok() && Honest(m0, events[..i], answers) && m == After(m0, events[..i], answers)
    {
      IsSeen(k, m);
      LowIsLow(k);
      ghost var a := Happen(k, events[i], m);
      OneMore(m0, events[..i], answers, events[i], a);
      assert events[..i + 1] == events[..i] + [events[i]];
      StaysTame(m, events[i], a);
      m := m.Step(events[i], a);
      OneMoreExcused(events[..i], answers, supplies, events[i], a, k.vm.alloc.Left());
      answers, supplies := answers + [a], supplies + [k.vm.alloc.Left()];
      i := i + 1;
    }
    assert events[..i] == events;
    IsSeen(k, m);
  }

  lemma Imitated(k: Kernel)
    requires k.Valid()
    ensures |k.procs| == PROC_MAX && |k.spaces| == PROC_MAX && k.current < PROC_MAX && Imitates(k, Seen(k))
  {
    hide Kernel.Valid, View, Views;
    k.SharingFacts();
  }

  lemma IsSeen(k: Kernel, m: Machine)
    requires Imitates(k, m)
    ensures k.Valid() && |k.procs| == PROC_MAX && |k.spaces| == PROC_MAX && k.current < PROC_MAX && Seen(k) == m
  {
    hide Kernel.Valid, View, Views;
    k.SharingFacts();
  }

  lemma OneMoreExcused(events: seq<Event>, answers: seq<Answer>, supplies: seq<Supply>, e: Event, a: Answer, s: Supply)
    requires |answers| == |events| == |supplies| - 1 && Excused(events, answers, supplies)
    requires a == NoMemory ==> e.ForkProcess? || e.Spawn? || supplies[|events|].OneAtMost()
    ensures Excused(events + [e], answers + [a], supplies + [s])
  {}

  lemma LowIsLow(k: Kernel)
    requires k.Valid()
    ensures k.vm.alloc.LowMemory() <==> k.vm.alloc.Left().OneAtMost()
    ensures k.vm.alloc.LowMemory() ==> k.vm.alloc.Level().room < 8192
  {
    hide PageAllocator.Valid, Inv, Kernel.Linked, ImageOk, ProcsOk;
    k.vm.alloc.LowRoom();
  }

  lemma NoEvents(m: Machine, s: Supply)
    requires m.Ok()
    ensures Honest(m, [], []) && After(m, [], []) == m && Excused([], [], [s])
  {}

  /** The machine at boot: nobody has any memory, and the idle process runs. */
  function Start(program: map<nat, Frame>): (m: Machine)
    ensures m.Ok() && m.Tame()
  {
    Machine(seq(PROC_MAX, _ => map[]), {0}, 0, program)
  }

  /** The kernel as it boots; null when the allocator cannot give the first root table. */
  method Boot(ram: Ram, freeFrame: nat, managed: nat, image: seq<Segment>) returns (k: Kernel?)
    requires freeFrame > 0 && freeFrame + managed < FRAMES && RefTop(Bytes(freeFrame), managed) > Bytes(freeFrame)
    requires ImageOk(image)
    modifies ram
    ensures k == null <==> RefTop(Bytes(freeFrame), managed) < Bytes(freeFrame) + 4096
    ensures k != null ==> fresh(k) && fresh(k.vm) && fresh(k.vm.alloc) && fresh(k.vm.alloc.repr) && k.vm.ram == ram
    ensures k != null ==> k.Valid() && |k.procs| == PROC_MAX && |k.spaces| == PROC_MAX && k.current < PROC_MAX
                          && Seen(k) == Start(Outside(old(ram.frames), freeFrame, managed))
    ensures k != null ==> k.Lost() == {} && !k.vm.alloc.leakWarned
  {
    hide Kernel.Valid, PageAllocator.Valid, PageTables.Valid, PageTables.Booted, View, ImageOk, Inv, Seen, Walk,
      Kernel.Snapshot, KernelWalk, Bytes;
    var alloc := new PageAllocator(ram, freeFrame, managed);
    var vm := new PageTables(ram, alloc);
    NothingHeld(alloc);
    var rc := vm.VmInit();
    if rc < 0 {
      return null;
    }
    k := new Kernel(vm, image);
    k.SharingFacts();
    NothingSeen(k);
    NoneStray(k);
    OutsideSame(old(ram.frames), k.rom, freeFrame, managed);
  }

  /** A program of two pages of code and one of data, in front of 32 MiB of free RAM: the
      kernel boots. */
  method BootOnce(ram: Ram) returns (k: Kernel)
    modifies ram
    ensures k.Valid() && |k.procs| == PROC_MAX && |k.spaces| == PROC_MAX && k.current < PROC_MAX
    ensures Seen(k) == Start(Outside(old(ram.frames), 0x8_0206, 8192)) && k.Lost() == {}
  {
    hide Kernel.Valid, Seen, Start, Kernel.Lost;
    var none := Segment(0x8020_5000, 0x8020_5000, UserPerm(READ_WRITE));
    var image := [Segment(0x8020_0000, 0x8020_1000, UserPerm(READ)),
                  Segment(0x8020_1000, 0x8020_3000, UserPerm(READ_EXEC)),
                  Segment(0x8020_3000, 0x8020_4000, UserPerm(READ)), none, none];
    assert RefTop(Bytes(0x8_0206), 8192) == Bytes(0x8_0206) + 4094 * 8192;
    var booted := Boot(ram, 0x8_0206, 8192, image);
    k := booted;
  }

  lemma NothingHeld(alloc: PageAllocator)
    requires alloc.Valid() && forall i | 0 <= i < alloc.managed && i < |alloc.refs| :: alloc.refs[i] == 0
    ensures StrayFrames(alloc.refs, alloc.freeFrame, {}) == {}
  {}

  lemma NothingSeen(k: Kernel)
    requires k.Valid() && k.procs == seq(PROC_MAX, _ => UNUSED)[0 := IDLE] && k.current == 0
    ensures |k.procs| == PROC_MAX && |k.spaces| == PROC_MAX && Seen(k) == Start(k.Program())
  {
    hide Kernel.Valid, View;
    k.SharingFacts();
    forall i | 0 <= i < PROC_MAX ensures View(k.Snapshot(), i) == map[] {
      NothingToSee(k.Snapshot(), i);
    }
    assert InUse(k.procs) == {0};
  }

  lemma NoneStray(k: Kernel)
    requires k.vm.Stray() == {}
    ensures k.Lost() == {}
  {}

  /** From boot on, over every run: what processes see is what the eager machine has, and
      if no mmap asks for W alone every page in use is a page table, or mapped, or one
      that the allocator has warned it could not free. */
  method BootAndRun(ram: Ram, freeFrame: nat, managed: nat, image: seq<Segment>, events: seq<Event>)
    returns (k: Kernel?, ghost answers: seq<Answer>, ghost supplies: seq<Supply>)
    requires freeFrame > 0 && freeFrame + managed < FRAMES && RefTop(Bytes(freeFrame), managed) > Bytes(freeFrame)
    requires ImageOk(image)
    modifies ram
    ensures k == null <==> RefTop(Bytes(freeFrame), managed) < Bytes(freeFrame) + 4096
    ensures k != null ==> k.Valid() && |k.procs| == PROC_MAX && |k.spaces| == PROC_MAX && k.current < PROC_MAX
    ensures k != null ==> var m := Start(Outside(old(ram.frames), freeFrame, managed));
              |answers| == |events| && Honest(m, events, answers) && Seen(k) == After(m, events, answers)
    ensures k != null && (forall i | 0 <= i < |events| :: Harmless(events[i])) ==>
              k.vm.alloc.leakWarned || k.Lost() == {}
    ensures k != null && NoMemory in answers ==> k.vm.alloc.Level().room < 8192
    ensures k != null ==> |supplies| == |events| + 1 && Excused(events, answers, supplies)
                          && supplies[|events|] == k.vm.alloc.Left()
  {
    hide Kernel.Valid, ImageOk, Honest, After, Seen, Start, Kernel.Lost, Harmless;
    answers, supplies := [], [];
    k := Boot(ram, freeFrame, managed, image);
    if k != null {
      answers, supplies := Run(k, events);
      k.SharingFacts();
    }
  }
}
