/** The seccomp filter generator: a policy compiled to classic BPF with computed
    relative jumps, an interpreter for the instructions it emits, and the proof
    that running the program decides exactly the policy. */
module Seccomp {
  import opened Basics

  // linux/bpf_common.h, linux/filter.h
  const LD_W_ABS: nat := 0x20
  const JEQ_K: nat := 0x15
  const JSET_K: nat := 0x45
  const RET_K: nat := 0x06

  // linux/seccomp.h
  const RET_KILL_PROCESS: bv32 := 0x8000_0000
  const RET_ERRNO: bv32 := 0x0005_0000
  const RET_ALLOW: bv32 := 0x7fff_0000

  const AUDIT_ARCH_X86_64: bv32 := 0xc000_003e
  const X32_BIT: bv32 := 0x4000_0000

  // Offsets into `struct seccomp_data`.
  const NR: bv32 := 0
  const ARCH: bv32 := 4
  const ARG0: bv32 := 16
  const ARG2: bv32 := 32

  // The x86-64 numbers libc gives these names.
  const SYS_MMAP: bv32 := 9
  const SYS_MPROTECT: bv32 := 10
  const SYS_PKEY_MPROTECT: bv32 := 329
  const SYS_CLONE: bv32 := 56
  const SYS_CLONE3: bv32 := 435
  const SYS_SOCKET: bv32 := 41
  const SYS_SOCKETPAIR: bv32 := 53
  const PROT_EXEC: bv32 := 4
  const CLONE_THREAD: bv32 := 0x1_0000
  const AF_UNIX: bv32 := 1
  const EPERM: bv32 := 1
  const ENOSYS: bv32 := 38
  const EAFNOSUPPORT: bv32 := 97

  type U8 = x: int | 0 <= x < 256

  /** `struct sock_filter`: jumps are relative and forward. */
  datatype Insn = Insn(code: nat, jt: U8, jf: U8, k: bv32)

  /** `struct seccomp_data`, what a filter may read. */
  datatype Data = Data(nr: bv32, arch: bv32, ip: bv64,
                       arg0: bv64, arg1: bv64, arg2: bv64, arg3: bv64, arg4: bv64, arg5: bv64)

  function Stmt(code: nat, k: bv32): Insn {
    Insn(code, 0, 0, k)
  }

  function Jump(code: nat, k: bv32, jt: U8, jf: U8): Insn {
    Insn(code, jt, jf, k)
  }

  function Ret(k: bv32): Insn {
    Stmt(RET_K, k)
  }

  function Errno(e: bv32): bv32 {
    RET_ERRNO | (e & 0xffff)
  }

  // ---------------------------------------------------------------------
  // The machine

  function Low(x: bv64): bv32 {
    (x & 0xffff_ffff) as bv32
  }

  function High(x: bv64): bv32 {
    (x >> 32) as bv32
  }

  /** The 32-bit word at a byte offset; little-endian, so an argument's low half comes first. */
  function Load(d: Data, k: bv32): Option<bv32> {
    if k == NR then Some(d.nr)
    else if k == ARCH then Some(d.arch)
    else if k == 8 then Some(Low(d.ip))
    else if k == 12 then Some(High(d.ip))
    else if k == 16 then Some(Low(d.arg0))
    else if k == 20 then Some(High(d.arg0))
    else if k == 24 then Some(Low(d.arg1))
    else if k == 28 then Some(High(d.arg1))
    else if k == 32 then Some(Low(d.arg2))
    else if k == 36 then Some(High(d.arg2))
    else if k == 40 then Some(Low(d.arg3))
    else if k == 44 then Some(High(d.arg3))
    else if k == 48 then Some(Low(d.arg4))
    else if k == 52 then Some(High(d.arg4))
    else if k == 56 then Some(Low(d.arg5))
    else if k == 60 then Some(High(d.arg5))
    else None
  }

  /** What the program returns from `pc` on; None if it runs off the end or faults. */
  function Run(p: seq<Insn>, pc: nat, acc: bv32, d: Data): Option<bv32>
    decreases |p| - pc
  {
    if pc >= |p| then None
    else
      var i := p[pc];
      if i.code == RET_K then Some(i.k)
      else if i.code == LD_W_ABS then
        match Load(d, i.k)
        case None => None
        case Some(w) => Run(p, pc + 1, w, d)
      else if i.code == JEQ_K then Run(p, pc + 1 + (if acc == i.k then i.jt else i.jf), acc, d)
      else if i.code == JSET_K then Run(p, pc + 1 + (if acc & i.k != 0 then i.jt else i.jf), acc, d)
      else None
  }

  // ---------------------------------------------------------------------
  // The policy

  datatype Verdict = KillProcess | Allow | Refuse(errno: bv32)

  /** What the kernel makes of a filter's return value. */
  function Meaning(k: bv32): Option<Verdict> {
    var action := k & 0xffff_0000;
    if action == RET_KILL_PROCESS then Some(KillProcess)
    else if action == RET_ERRNO then Some(Refuse(k & 0xffff))
    else if action == RET_ALLOW then Some(Allow)
    else None
  }

  /** The rules, on the system call's own 64-bit arguments. The kernel takes a
      socket family as an int, so only that one is read as 32 bits. */
  function Policy(listed: seq<bv32>, d: Data): Verdict {
    if d.arch != AUDIT_ARCH_X86_64 || d.nr & X32_BIT != 0 then KillProcess
    else if d.nr == SYS_MMAP || d.nr == SYS_MPROTECT || d.nr == SYS_PKEY_MPROTECT then
      if d.arg2 & 4 != 0 then Refuse(EPERM) else Allow
    else if d.nr == SYS_CLONE then
      if d.arg0 & 0x1_0000 != 0 then Allow else Refuse(EPERM)
    else if d.nr == SYS_CLONE3 then Refuse(ENOSYS)
    else if d.nr == SYS_SOCKET || d.nr == SYS_SOCKETPAIR then
      if Low(d.arg0) == AF_UNIX then Allow else Refuse(EAFNOSUPPORT)
    else if d.nr in listed then Allow
    else Refuse(EPERM)
  }

  // ---------------------------------------------------------------------
  // The program

  function Prologue(): seq<Insn> {
    [ Stmt(LD_W_ABS, ARCH),
      Jump(JEQ_K, AUDIT_ARCH_X86_64, 1, 0),
      Ret(RET_KILL_PROCESS),
      Stmt(LD_W_ABS, NR),
      Jump(JSET_K, X32_BIT, 0, 1),
      Ret(RET_KILL_PROCESS) ]
  }

  /** One argument-checked call: `test` decides between the errno and allowing. */
  function ArgBlock(nr: bv32, arg: bv32, test: Insn, e: bv32): seq<Insn> {
    [ Stmt(LD_W_ABS, NR),
      Jump(JEQ_K, nr, 0, 4),
      Stmt(LD_W_ABS, arg),
      test,
      Ret(Errno(e)),
      Ret(RET_ALLOW) ]
  }

  function ExecBlock(nr: bv32): seq<Insn> {
    ArgBlock(nr, ARG2, Jump(JSET_K, PROT_EXEC, 0, 1), EPERM)
  }

  function CloneBlock(): seq<Insn> {
    ArgBlock(SYS_CLONE, ARG0, Jump(JSET_K, CLONE_THREAD, 1, 0), EPERM)
  }

  function Clone3Block(): seq<Insn> {
    [ Stmt(LD_W_ABS, NR),
      Jump(JEQ_K, SYS_CLONE3, 0, 1),
      Ret(Errno(ENOSYS)) ]
  }

  function FamilyBlock(nr: bv32): seq<Insn> {
    ArgBlock(nr, ARG0, Jump(JEQ_K, AF_UNIX, 1, 0), EAFNOSUPPORT)
  }

  /** The i-th plain comparison: over the rest of the list to RET_ALLOW on a match,
      with the distance narrowed to eight bits as the generator narrows it. */
  function Compare(listed: seq<bv32>, i: nat): Insn
    requires i < |listed|
  {
    Jump(JEQ_K, listed[i], (|listed| - 1 - i) % 256, if i + 1 == |listed| then 1 else 0)
  }

  function Chain(listed: seq<bv32>, upTo: nat): seq<Insn>
    requires upTo <= |listed|
  {
    seq(upTo, i requires 0 <= i < upTo => Compare(listed, i))
  }

  function Fixed(): seq<Insn> {
    Prologue()
    + ExecBlock(SYS_MMAP) + ExecBlock(SYS_MPROTECT) + ExecBlock(SYS_PKEY_MPROTECT)
    + CloneBlock() + Clone3Block()
    + FamilyBlock(SYS_SOCKET) + FamilyBlock(SYS_SOCKETPAIR)
    + [Stmt(LD_W_ABS, NR)]
  }

  const CHAIN_AT: nat := 46

  function Filter(listed: seq<bv32>): seq<Insn> {
    Fixed() + Chain(listed, |listed|) + [Ret(RET_ALLOW), Ret(Errno(EPERM))]
  }

  /** The generator, pushing blocks in order. */
  method Program(simple: seq<bv32>) returns (p: seq<Insn>)
    ensures p == Filter(simple)
  {
    hide Prologue, ExecBlock, CloneBlock, Clone3Block, FamilyBlock, Errno;
    p := Prologue();
    var exec := [SYS_MMAP, SYS_MPROTECT, SYS_PKEY_MPROTECT];
    for j := 0 to |exec|
      invariant p == Prologue() + (if j > 0 then ExecBlock(SYS_MMAP) else [])
                     + (if j > 1 then ExecBlock(SYS_MPROTECT) else [])
                     + (if j > 2 then ExecBlock(SYS_PKEY_MPROTECT) else [])
    {
      p := p + ExecBlock(exec[j]);
    }
    p := p + CloneBlock();
    p := p + Clone3Block();
    ghost var before := p;
    var family := [SYS_SOCKET, SYS_SOCKETPAIR];
    for j := 0 to |family|
      invariant p == before + (if j > 0 then FamilyBlock(SYS_SOCKET) else [])
                     + (if j > 1 then FamilyBlock(SYS_SOCKETPAIR) else [])
    {
      p := p + FamilyBlock(family[j]);
    }
    var n := |simple|;
    p := p + [Stmt(LD_W_ABS, NR)];
    assert p == Fixed();
    for i := 0 to n
      invariant p == Fixed() + Chain(simple, i)
    {
      var toAllow := (n - 1 - i) % 256;
      var jf := if i + 1 == n then 1 else 0;
      p := p + [Jump(JEQ_K, simple[i], toAllow, jf)];
      assert Chain(simple, i + 1) == Chain(simple, i) + [Compare(simple, i)];
    }
    p := p + [Ret(RET_ALLOW)];
    p := p + [Ret(Errno(EPERM))];
  }

  // ---------------------------------------------------------------------
  // Blocks

  predicate Holds(p: seq<Insn>, at: nat, block: seq<Insn>) {
    at + |block| <= |p| && p[at..at + |block|] == block
  }

  lemma HoldsAt(p: seq<Insn>, at: nat, block: seq<Insn>)
    requires Holds(p, at, block)
    ensures forall j {:trigger block[j]} :: 0 <= j < |block| ==> p[at + j] == block[j]
  {
  }

  /** Whether a test instruction takes its true branch on `w`. */
  predicate Passes(test: Insn, w: bv32) {
    if test.code == JEQ_K then w == test.k else w & test.k != 0
  }

  lemma StepLoad(p: seq<Insn>, pc: nat, acc: bv32, d: Data)
    requires pc < |p| && p[pc].code == LD_W_ABS && Load(d, p[pc].k).Some?
    ensures Run(p, pc, acc, d) == Run(p, pc + 1, Load(d, p[pc].k).value, d)
  {
  }

  lemma StepJump(p: seq<Insn>, pc: nat, acc: bv32, d: Data)
    requires pc < |p| && (p[pc].code == JEQ_K || p[pc].code == JSET_K)
    ensures Run(p, pc, acc, d) == Run(p, pc + 1 + (if Passes(p[pc], acc) then p[pc].jt else p[pc].jf), acc, d)
  {
  }

  lemma ArgBlockRuns(p: seq<Insn>, at: nat, nr: bv32, arg: bv32, test: Insn, e: bv32, acc: bv32, d: Data)
    requires Holds(p, at, ArgBlock(nr, arg, test, e))
    requires test.code == JEQ_K || test.code == JSET_K
    requires test.jt <= 1 && test.jf <= 1
    requires Load(d, arg).Some?
    ensures Run(p, at, acc, d) ==
            if d.nr != nr then Run(p, at + 6, d.nr, d)
            else if (if Passes(test, Load(d, arg).value) then test.jt else test.jf) == 0 then Some(Errno(e))
            else Some(RET_ALLOW)
  {
    var block := ArgBlock(nr, arg, test, e);
    HoldsAt(p, at, block);
    assert p[at] == block[0] && p[at + 1] == block[1] && p[at + 2] == block[2];
    assert p[at + 3] == block[3] && p[at + 4] == block[4] && p[at + 5] == block[5];
    StepLoad(p, at, acc, d);
    StepJump(p, at + 1, d.nr, d);
    if d.nr == nr { TestRuns(p, at + 2, arg, test, e, d.nr, d); }
  }

  /** Load the argument, test it, and return one way or the other. */
  lemma TestRuns(p: seq<Insn>, pc: nat, arg: bv32, test: Insn, e: bv32, acc: bv32, d: Data)
    requires pc + 4 <= |p| && p[pc] == Stmt(LD_W_ABS, arg) && p[pc + 1] == test
    requires p[pc + 2] == Ret(Errno(e)) && p[pc + 3] == Ret(RET_ALLOW)
    requires (test.code == JEQ_K || test.code == JSET_K) && test.jt <= 1 && test.jf <= 1
    requires Load(d, arg).Some?
    ensures Run(p, pc, acc, d) ==
            if (if Passes(test, Load(d, arg).value) then test.jt else test.jf) == 0 then Some(Errno(e)) else Some(RET_ALLOW)
  {
    StepLoad(p, pc, acc, d);
    StepJump(p, pc + 1, Load(d, arg).value, d);
  }

  lemma PrologueRuns(p: seq<Insn>, acc: bv32, d: Data)
    requires Holds(p, 0, Prologue())
    ensures Run(p, 0, acc, d) ==
            if d.arch != AUDIT_ARCH_X86_64 || d.nr & X32_BIT != 0 then Some(RET_KILL_PROCESS)
            else Run(p, 6, d.nr, d)
  {
    var block := Prologue();
    HoldsAt(p, 0, block);
    assert p[0] == block[0] && p[1] == block[1] && p[2] == block[2];
    assert p[3] == block[3] && p[4] == block[4] && p[5] == block[5];
    StepLoad(p, 0, acc, d);
    StepJump(p, 1, d.arch, d);
    if d.arch == AUDIT_ARCH_X86_64 {
      StepLoad(p, 3, d.arch, d);
      StepJump(p, 4, d.nr, d);
    }
  }

  lemma Clone3Runs(p: seq<Insn>, at: nat, acc: bv32, d: Data)
    requires Holds(p, at, Clone3Block())
    ensures Run(p, at, acc, d) ==
            if d.nr == SYS_CLONE3 then Some(Errno(ENOSYS)) else Run(p, at + 3, d.nr, d)
  {
    var block := Clone3Block();
    HoldsAt(p, at, block);
    assert p[at] == block[0] && p[at + 1] == block[1] && p[at + 2] == block[2];
    StepLoad(p, at, acc, d);
    StepJump(p, at + 1, d.nr, d);
  }

  // ---------------------------------------------------------------------
  // The list

  /** `p` ends in the comparisons and the two verdicts they choose between. */
  predicate EndsInChain(p: seq<Insn>, listed: seq<bv32>) {
    && |p| == CHAIN_AT + |listed| + 2
    && (forall i :: 0 <= i < |listed| ==> p[CHAIN_AT + i] == Compare(listed, i))
    && p[CHAIN_AT + |listed|] == Ret(RET_ALLOW)
    && p[CHAIN_AT + |listed| + 1] == Ret(Errno(EPERM))
  }

  /** A number listed nowhere from `i` on falls through to the default, however long the list is. */
  lemma {:induction false} ChainMisses(p: seq<Insn>, listed: seq<bv32>, i: nat, d: Data)
    requires EndsInChain(p, listed) && i < |listed|
    requires d.nr !in listed[i..]
    ensures Run(p, CHAIN_AT + i, d.nr, d) == Some(Errno(EPERM))
    decreases |listed| - i
  {
    assert p[CHAIN_AT + i] == Compare(listed, i);
    assert listed[i] == listed[i..][0];
    if i + 1 == |listed| {
      assert Run(p, CHAIN_AT + i, d.nr, d) == Run(p, CHAIN_AT + |listed| + 1, d.nr, d);
    } else {
      assert listed[i + 1..] == listed[i..][1..];
      ChainMisses(p, listed, i + 1, d);
    }
  }

  /** While no distance needs more than eight bits, a listed number reaches RET_ALLOW. */
  lemma {:induction false} ChainHits(p: seq<Insn>, listed: seq<bv32>, i: nat, d: Data)
    requires EndsInChain(p, listed) && i < |listed| <= 256
    requires d.nr in listed[i..]
    ensures Run(p, CHAIN_AT + i, d.nr, d) == Some(RET_ALLOW)
    decreases |listed| - i
  {
    assert p[CHAIN_AT + i] == Compare(listed, i);
    if d.nr == listed[i] {
      assert Run(p, CHAIN_AT + i, d.nr, d) == Run(p, CHAIN_AT + |listed|, d.nr, d);
    } else {
      assert listed[i..] == [listed[i]] + listed[i + 1..];
      ChainHits(p, listed, i + 1, d);
    }
  }

  // ---------------------------------------------------------------------
  // The whole program

  lemma FilterLayout(listed: seq<bv32>)
    ensures var p := Filter(listed);
            && Holds(p, 0, Prologue())
            && Holds(p, 6, ExecBlock(SYS_MMAP))
            && Holds(p, 12, ExecBlock(SYS_MPROTECT))
            && Holds(p, 18, ExecBlock(SYS_PKEY_MPROTECT))
            && Holds(p, 24, CloneBlock())
            && Holds(p, 30, Clone3Block())
            && Holds(p, 33, FamilyBlock(SYS_SOCKET))
            && Holds(p, 39, FamilyBlock(SYS_SOCKETPAIR))
            && Holds(p, 45, [Stmt(LD_W_ABS, NR)])
            && EndsInChain(p, listed)
  {
  }

  // What the argument rules return, on the half of the argument they load.

  function ExecReturn(d: Data): bv32 {
    if Low(d.arg2) & PROT_EXEC != 0 then Errno(EPERM) else RET_ALLOW
  }

  function CloneReturn(d: Data): bv32 {
    if Low(d.arg0) & CLONE_THREAD != 0 then RET_ALLOW else Errno(EPERM)
  }

  function FamilyReturn(d: Data): bv32 {
    if Low(d.arg0) == AF_UNIX then RET_ALLOW else Errno(EAFNOSUPPORT)
  }

  lemma ExecRuns(p: seq<Insn>, at: nat, nr: bv32, acc: bv32, d: Data)
    requires Holds(p, at, ExecBlock(nr))
    ensures Run(p, at, acc, d) == if d.nr == nr then Some(ExecReturn(d)) else Run(p, at + 6, d.nr, d)
  {
    hide Run, Errno, Low;
    ArgBlockRuns(p, at, nr, ARG2, Jump(JSET_K, PROT_EXEC, 0, 1), EPERM, acc, d);
  }

  lemma CloneRuns(p: seq<Insn>, at: nat, acc: bv32, d: Data)
    requires Holds(p, at, CloneBlock())
    ensures Run(p, at, acc, d) == if d.nr == SYS_CLONE then Some(CloneReturn(d)) else Run(p, at + 6, d.nr, d)
  {
    hide Run, Errno, Low;
    ArgBlockRuns(p, at, SYS_CLONE, ARG0, Jump(JSET_K, CLONE_THREAD, 1, 0), EPERM, acc, d);
  }

  lemma FamilyRuns(p: seq<Insn>, at: nat, nr: bv32, acc: bv32, d: Data)
    requires Holds(p, at, FamilyBlock(nr))
    ensures Run(p, at, acc, d) == if d.nr == nr then Some(FamilyReturn(d)) else Run(p, at + 6, d.nr, d)
  {
    hide Run, Errno, Low;
    ArgBlockRuns(p, at, nr, ARG0, Jump(JEQ_K, AF_UNIX, 1, 0), EAFNOSUPPORT, acc, d);
  }

  /** What the rules before the list return, on the halves they load. */
  function Ruled(d: Data): bv32
    requires Checked(d)
  {
    if d.arch != AUDIT_ARCH_X86_64 || d.nr & X32_BIT != 0 then RET_KILL_PROCESS
    else if d.nr == SYS_MMAP || d.nr == SYS_MPROTECT || d.nr == SYS_PKEY_MPROTECT then ExecReturn(d)
    else if d.nr == SYS_CLONE then CloneReturn(d)
    else if d.nr == SYS_CLONE3 then Errno(ENOSYS)
    else FamilyReturn(d)
  }

  lemma FixedReturns(listed: seq<bv32>, acc: bv32, d: Data)
    ensures Run(Filter(listed), 0, acc, d) ==
            if Checked(d) then Some(Ruled(d)) else Run(Filter(listed), CHAIN_AT, d.nr, d)
  {
    hide Run, Filter, Holds, EndsInChain, ExecReturn, CloneReturn, FamilyReturn, Errno;
    var p := Filter(listed);
    FilterLayout(listed);
    PrologueRuns(p, acc, d);
    ExecRuns(p, 6, SYS_MMAP, d.nr, d);
    ExecRuns(p, 12, SYS_MPROTECT, d.nr, d);
    ExecRuns(p, 18, SYS_PKEY_MPROTECT, d.nr, d);
    CloneRuns(p, 24, d.nr, d);
    Clone3Runs(p, 30, d.nr, d);
    FamilyRuns(p, 33, SYS_SOCKET, d.nr, d);
    FamilyRuns(p, 39, SYS_SOCKETPAIR, d.nr, d);
    Reloads(p, d.nr, d);
  }

  /** The number is loaded once more before the comparisons. */
  lemma Reloads(p: seq<Insn>, acc: bv32, d: Data)
    requires Holds(p, 45, [Stmt(LD_W_ABS, NR)])
    ensures Run(p, 45, acc, d) == Run(p, CHAIN_AT, d.nr, d)
  {
    HoldsAt(p, 45, [Stmt(LD_W_ABS, NR)]);
    assert p[45] == [Stmt(LD_W_ABS, NR)][0];
    StepLoad(p, 45, acc, d);
  }

  /** The halves hold what the rules ask about the whole argument. */
  lemma RuledIsPolicy(listed: seq<bv32>, d: Data)
    requires Checked(d)
    ensures Meaning(Ruled(d)) == Some(Policy(listed, d))
  {
    hide Meaning, Errno, Low;
    MeaningOfReturns();
    LowKeepsBits(d.arg2);
    LowKeepsBits(d.arg0);
  }

  /** What the program does up to the list: the verdict of an argument rule, or on to the comparisons. */
  lemma FixedRuns(listed: seq<bv32>, acc: bv32, d: Data)
    ensures var r := Run(Filter(listed), 0, acc, d);
            if Checked(d) then r.Some? && Meaning(r.value) == Some(Policy(listed, d))
            else r == Run(Filter(listed), CHAIN_AT, d.nr, d)
  {
    hide Run, Filter, Meaning, Ruled, Policy;
    FixedReturns(listed, acc, d);
    if Checked(d) { RuledIsPolicy(listed, d); }
  }

  /** The calls and numbers the rules before the list decide. */
  predicate Checked(d: Data) {
    || d.arch != AUDIT_ARCH_X86_64 || d.nr & X32_BIT != 0
    || Special(d.nr)
  }

  predicate Special(nr: bv32) {
    || nr == SYS_MMAP || nr == SYS_MPROTECT || nr == SYS_PKEY_MPROTECT
    || nr == SYS_CLONE || nr == SYS_CLONE3 || nr == SYS_SOCKET || nr == SYS_SOCKETPAIR
  }

  lemma MeaningOfReturns()
    ensures Meaning(RET_KILL_PROCESS) == Some(KillProcess)
    ensures Meaning(RET_ALLOW) == Some(Allow)
    ensures Meaning(Errno(EPERM)) == Some(Refuse(EPERM))
    ensures Meaning(Errno(ENOSYS)) == Some(Refuse(ENOSYS))
    ensures Meaning(Errno(EAFNOSUPPORT)) == Some(Refuse(EAFNOSUPPORT))
  {
  }

  /** The two flag bits the filter tests live in the half it loads. */
  lemma LowKeepsBits(x: bv64)
    ensures (Low(x) & PROT_EXEC != 0) <==> (x & 4 != 0)
    ensures (Low(x) & CLONE_THREAD != 0) <==> (x & 0x1_0000 != 0)
  {
  }

  ghost predicate Decides(listed: seq<bv32>, d: Data) {
    var r := Run(Filter(listed), 0, 0, d);
    r.Some? && Meaning(r.value) == Some(Policy(listed, d))
  }

  /** Every program over 1 to 256 numbers, in any order and with repeats, halts at a
      RET and decides the policy for every call. */
  lemma FilterDecidesPolicy(listed: seq<bv32>, d: Data)
    requires 1 <= |listed| <= 256
    ensures Decides(listed, d)
  {
    FixedRuns(listed, 0, d);
    FilterLayout(listed);
    MeaningOfReturns();
    if !Checked(d) {
      var p := Filter(listed);
      assert listed[0..] == listed;
      if d.nr in listed {
        ChainHits(p, listed, 0, d);
      } else {
        ChainMisses(p, listed, 0, d);
      }
    }
  }

  /** The same in the numbers of the x86-64 system-call table and of linux/seccomp.h: what the program
      returns for every call. */
  lemma ReturnsByNumber(listed: seq<bv32>, d: Data)
    requires 1 <= |listed| <= 256
    ensures var r := Run(Filter(listed), 0, 0, d);
            if d.arch != 0xc000_003e || d.nr & 0x4000_0000 != 0 then r == Some(0x8000_0000)
            else if d.nr == 9 || d.nr == 10 || d.nr == 329 then
              r == Some(if d.arg2 & 4 != 0 then 0x0005_0001 else 0x7fff_0000)
            else if d.nr == 56 then r == Some(if d.arg0 & 0x1_0000 != 0 then 0x7fff_0000 else 0x0005_0001)
            else if d.nr == 435 then r == Some(0x0005_0026)
            else if d.nr == 41 || d.nr == 53 then
              r == Some(if d.arg0 & 0xffff_ffff == 1 then 0x7fff_0000 else 0x0005_0061)
            else r == Some(if d.nr in listed then 0x7fff_0000 else 0x0005_0001)
  {
    hide Run, Filter, Low;
    FixedReturns(listed, 0, d);
    LowKeepsBits(d.arg2);
    LowKeepsBits(d.arg0);
    LowIsOne(d.arg0);
    ErrnoWords();
    if !Checked(d) { PlainReturns(listed, d); }
  }

  lemma PlainReturns(listed: seq<bv32>, d: Data)
    requires 1 <= |listed| <= 256
    ensures Run(Filter(listed), CHAIN_AT, d.nr, d) == Some(if d.nr in listed then RET_ALLOW else Errno(EPERM))
  {
    hide Run, Filter;
    FilterLayout(listed);
    assert listed[0..] == listed;
    if d.nr in listed {
      ChainHits(Filter(listed), listed, 0, d);
    } else {
      ChainMisses(Filter(listed), listed, 0, d);
    }
  }

  lemma LowIsOne(x: bv64)
    ensures Low(x) == 1 <==> x & 0xffff_ffff == 1
  {
  }

  /** An argument is its two halves, the low one first in memory. */
  lemma HalvesAreAll(x: bv64)
    ensures (High(x) as bv64 << 32) | Low(x) as bv64 == x
  {
  }

  lemma ErrnoWords()
    ensures Errno(1) == 0x0005_0001 && Errno(38) == 0x0005_0026 && Errno(97) == 0x0005_0061
  {
  }

  /** `struct seccomp_data`, the words the program loads: an argument's low half comes first. */
  lemma WordsOfData(d: Data)
    ensures Load(d, 0) == Some(d.nr) && Load(d, 4) == Some(d.arch)
    ensures Load(d, 16) == Some(Low(d.arg0)) && Load(d, 32) == Some(Low(d.arg2))
  {
    hide Low, High;
  }

  /** The instructions as the kernel decodes them. */
  lemma FirstInstructions(listed: seq<bv32>)
    ensures Filter(listed)[..6] ==
            [ Insn(0x20, 0, 0, 4), Insn(0x15, 1, 0, 0xc000_003e), Insn(0x06, 0, 0, 0x8000_0000),
              Insn(0x20, 0, 0, 0), Insn(0x45, 0, 1, 0x4000_0000), Insn(0x06, 0, 0, 0x8000_0000) ]
  {
    FilterLayout(listed);
    assert Filter(listed)[0..6] == Prologue();
  }

  /** What `allowed` hands over: sorted and deduplicated, and nothing an earlier rule decides. */
  ghost predicate PlainList(listed: seq<bv32>) {
    && (forall i, j :: 0 <= i < j < |listed| ==> listed[i] < listed[j])
    && (forall i :: 0 <= i < |listed| ==> listed[i] & X32_BIT == 0 && !Special(listed[i]))
  }

  function Call(nr: bv32): Data {
    Data(nr, AUDIT_ARCH_X86_64, 0, 0, 0, 0, 0, 0, 0)
  }

  /** An empty list leaves RET_ALLOW as the next instruction: every plain call is allowed. */
  lemma EmptyListAllowsEverything(d: Data)
    requires !Checked(d)
    ensures Run(Filter([]), 0, 0, d) == Some(RET_ALLOW)
    ensures Policy([], d) == Refuse(EPERM)
  {
    FixedRuns([], 0, d);
    FilterLayout([]);
  }

  /** Past 256 numbers the first distance no longer fits its byte, and the call it names is refused. */
  lemma LongListRefusesItsFirst(listed: seq<bv32>)
    requires PlainList(listed) && |listed| > 256
    ensures Run(Filter(listed), 0, 0, Call(listed[0])) == Some(Errno(EPERM))
    ensures Policy(listed, Call(listed[0])) == Allow
  {
    hide Run, Errno;
    var d := Call(listed[0]);
    var p := Filter(listed);
    FixedRuns(listed, 0, d);
    FilterLayout(listed);
    assert p[CHAIN_AT + 0] == Compare(listed, 0);
    var landed := 1 + (|listed| - 1) % 256;
    StepJump(p, CHAIN_AT, d.nr, d);
    ChainMisses(p, listed, landed, d);
  }

  /** Exactly when the generated program is the policy: the list holds 1 to 256 numbers. */
  lemma FilterDecidesExactly(listed: seq<bv32>)
    requires PlainList(listed)
    ensures (forall d :: Decides(listed, d)) <==> 1 <= |listed| <= 256
  {
    if 1 <= |listed| <= 256 {
      forall d ensures Decides(listed, d) {
        FilterDecidesPolicy(listed, d);
      }
    } else {
      MeaningOfReturns();
      if |listed| == 0 {
        assert listed == [];
        EmptyListAllowsEverything(Call(0));
        assert !Decides(listed, Call(0));
      } else {
        LongListRefusesItsFirst(listed);
        assert !Decides(listed, Call(listed[0]));
      }
    }
  }

  /** No jump leaves the program, whichever way it goes, and the last instruction is a RET:
      what the kernel checks before it takes a filter. */
  lemma NoJumpLeaves(listed: seq<bv32>, pc: nat)
    requires 1 <= |listed| <= 256 && pc < |Filter(listed)|
    ensures var p := Filter(listed);
            && |p| <= 4096
            && (p[pc].code == RET_K || (pc + 1 + p[pc].jt < |p| && pc + 1 + p[pc].jf < |p|))
            && p[|p| - 1].code == RET_K
  {
    hide Errno;
    hide Fixed;
    FixedSize();
    FixedStays();
    if pc < CHAIN_AT { assert Filter(listed)[pc] == Fixed()[pc]; }
  }

  lemma FixedSize()
    ensures |Fixed()| == CHAIN_AT
  {
  }

  /** No jump of a piece leads past its end. */
  ghost predicate Stays(piece: seq<Insn>) {
    forall pc :: 0 <= pc < |piece| ==>
      piece[pc].code == RET_K || (pc + 1 + piece[pc].jt <= |piece| && pc + 1 + piece[pc].jf <= |piece|)
  }

  lemma StaysTogether(a: seq<Insn>, b: seq<Insn>)
    requires Stays(a) && Stays(b)
    ensures Stays(a + b)
  {
  }

  lemma ArgBlockStays(nr: bv32, arg: bv32, test: Insn, e: bv32)
    requires test.jt <= 1 && test.jf <= 1
    ensures Stays(ArgBlock(nr, arg, test, e))
  {
  }

  lemma FixedStays()
    ensures Stays(Fixed())
  {
    hide Stays, ArgBlock, Clone3Block, Prologue;
    var exec := Jump(JSET_K, PROT_EXEC, 0, 1);
    var unix := Jump(JEQ_K, AF_UNIX, 1, 0);
    ArgBlockStays(SYS_MMAP, ARG2, exec, EPERM);
    ArgBlockStays(SYS_MPROTECT, ARG2, exec, EPERM);
    ArgBlockStays(SYS_PKEY_MPROTECT, ARG2, exec, EPERM);
    ArgBlockStays(SYS_CLONE, ARG0, Jump(JSET_K, CLONE_THREAD, 1, 0), EPERM);
    ArgBlockStays(SYS_SOCKET, ARG0, unix, EAFNOSUPPORT);
    ArgBlockStays(SYS_SOCKETPAIR, ARG0, unix, EAFNOSUPPORT);
    PlainStays();
    var p := Prologue();
    StaysTogether(p, ExecBlock(SYS_MMAP));
    p := p + ExecBlock(SYS_MMAP);
    StaysTogether(p, ExecBlock(SYS_MPROTECT));
    p := p + ExecBlock(SYS_MPROTECT);
    StaysTogether(p, ExecBlock(SYS_PKEY_MPROTECT));
    p := p + ExecBlock(SYS_PKEY_MPROTECT);
    StaysTogether(p, CloneBlock());
    p := p + CloneBlock();
    StaysTogether(p, Clone3Block());
    p := p + Clone3Block();
    StaysTogether(p, FamilyBlock(SYS_SOCKET));
    p := p + FamilyBlock(SYS_SOCKET);
    StaysTogether(p, FamilyBlock(SYS_SOCKETPAIR));
    p := p + FamilyBlock(SYS_SOCKETPAIR);
    StaysTogether(p, [Stmt(LD_W_ABS, NR)]);
  }

  lemma PlainStays()
    ensures Stays(Prologue()) && Stays(Clone3Block()) && Stays([Stmt(LD_W_ABS, NR)])
  {
  }
}
