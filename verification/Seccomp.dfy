/**
 The sandbox's seccomp compiler: a syscall policy becomes a classic BPF program with
 computed eight-bit jump offsets, and running that program decides exactly the policy.
 */
module Seccomp {
  import opened Octets

  type Word = bv32

  // <linux/bpf_common.h>: LD|W|ABS, JMP|JEQ|K, JMP|JSET|K and RET|K
  const LOAD: nat := 0x20
  const JUMP_EQUAL: nat := 0x15
  const JUMP_SET: nat := 0x45
  const RETURN: nat := 0x06

  // offsets into struct seccomp_data
  const NUMBER_OFFSET: Word := 0
  const ARCH_OFFSET: Word := 4
  const ARGUMENT0_OFFSET: Word := 16
  const ARGUMENT1_OFFSET: Word := 24

  const MAX_INSTRUCTIONS: nat := 4096

  const KILL_PROCESS: Word := 0x8000_0000
  const DENY: Word := 0x0005_0001   // SECCOMP_RET_ERRNO | EPERM
  const ALLOW: Word := 0x7fff_0000

  datatype SockFilter = SockFilter(code: nat, jt: byte, jf: byte, k: Word)

  function Statement(code: nat, value: Word): SockFilter {
    SockFilter(code, 0, 0, value)
  }

  function Jump(code: nat, value: Word, jumpTrue: byte, jumpFalse: byte): SockFilter {
    SockFilter(code, jumpTrue, jumpFalse, value)
  }

  /** Go's conversion of an int to uint8. */
  function Uint8(n: nat): byte {
    n % 256
  }

  // ----- the machine -----

  /** What the filter can see of a system call; arguments are their low 32 bits. */
  datatype Call = Call(arch: Word, number: Word, argument0: Word, argument1: Word)

  /** The word at `offset`, for the offsets that the compiler uses. */
  function Fetch(call: Call, offset: Word): Option<Word> {
    if offset == NUMBER_OFFSET then Some(call.number)
    else if offset == ARCH_OFFSET then Some(call.arch)
    else if offset == ARGUMENT0_OFFSET then Some(call.argument0)
    else if offset == ARGUMENT1_OFFSET then Some(call.argument1)
    else None
  }

  datatype Outcome = Halt(result: Option<Word>) | Continue(skip: nat, acc: Word)

  /** One instruction: return, or skip some of the following instructions. */
  function Step(i: SockFilter, acc: Word, call: Call): Outcome {
    if i.code == RETURN then Halt(Some(i.k))
    else if i.code == LOAD then
      var word := Fetch(call, i.k);
      if word.None? then Halt(None) else Continue(0, word.value)
    else if i.code == JUMP_EQUAL then Continue(if acc == i.k then i.jt else i.jf, acc)
    else if i.code == JUMP_SET then Continue(if acc & i.k != 0 then i.jt else i.jf, acc)
    else Halt(None)
  }

  /** Runs the program from `pc`; None when it runs or jumps out of the program or faults. */
  function Run(program: seq<SockFilter>, pc: nat, acc: Word, call: Call): Option<Word>
    decreases |program| - pc
  {
    if pc >= |program| then None
    else
      match Step(program[pc], acc, call)
      case Halt(result) => result
      case Continue(skip, next) => Run(program, pc + 1 + skip, next, call)
  }

  /** Jumps are relative and forward, so code behaves the same wherever it is placed. */
  lemma {:induction false} Relocate(before: seq<SockFilter>, code: seq<SockFilter>, pc: nat, acc: Word, call: Call)
    ensures Run(before + code, |before| + pc, acc, call) == Run(code, pc, acc, call)
    decreases |code| - pc
  {
    if pc < |code| {
      assert (before + code)[|before| + pc] == code[pc];
      match Step(code[pc], acc, call)
      case Halt(_) =>
      case Continue(skip, next) => Relocate(before, code, pc + 1 + skip, next, call);
    }
  }

  lemma OnReturn(program: seq<SockFilter>, pc: nat, k: Word, acc: Word, call: Call)
    requires pc < |program| && program[pc] == Statement(RETURN, k)
    ensures Run(program, pc, acc, call) == Some(k)
  {
  }

  lemma OnLoad(program: seq<SockFilter>, pc: nat, offset: Word, acc: Word, call: Call)
    requires pc < |program| && program[pc] == Statement(LOAD, offset) && Fetch(call, offset).Some?
    ensures Run(program, pc, acc, call) == Run(program, pc + 1, Fetch(call, offset).value, call)
  {
  }

  lemma OnEqual(program: seq<SockFilter>, pc: nat, k: Word, jt: byte, jf: byte, acc: Word, call: Call)
    requires pc < |program| && program[pc] == Jump(JUMP_EQUAL, k, jt, jf)
    ensures Run(program, pc, acc, call) == Run(program, pc + 1 + (if acc == k then jt else jf), acc, call)
  {
  }

  lemma OnSet(program: seq<SockFilter>, pc: nat, k: Word, jt: byte, jf: byte, acc: Word, call: Call)
    requires pc < |program| && program[pc] == Jump(JUMP_SET, k, jt, jf)
    ensures Run(program, pc, acc, call) == Run(program, pc + 1 + (if acc & k != 0 then jt else jf), acc, call)
  {
  }

  /** Continuing at the end of `before` is starting on what follows. */
  lemma Enter(before: seq<SockFilter>, rest: seq<SockFilter>, acc: Word, call: Call)
    ensures Run(before + rest, |before|, acc, call) == Run(rest, 0, acc, call)
  {
    hide Run;
    Relocate(before, rest, 0, acc, call);
  }

  // ----- the policy -----

  datatype Spec = Spec(
    auditArch: Word,
    rejectedNumberMask: Word,
    deniedSyscalls: seq<Word>,
    ioctlNumber: Word,
    deniedIoctls: seq<Word>,
    socketNumber: Word,
    allowedSocketFamilies: seq<Word>)

  /** What the policy says about a call, without reference to any program. */
  function Verdict(spec: Spec, call: Call): Word {
    if call.arch != spec.auditArch then KILL_PROCESS
    else if call.number & spec.rejectedNumberMask != 0 then DENY
    else if spec.deniedIoctls != [] && call.number == spec.ioctlNumber && call.argument1 in spec.deniedIoctls then DENY
    else if spec.allowedSocketFamilies != [] && call.number == spec.socketNumber
            && call.argument0 !in spec.allowedSocketFamilies then DENY
    else if call.number in spec.deniedSyscalls then DENY
    else ALLOW
  }

  predicate Accepted(spec: Spec) {
    && spec.auditArch != 0
    && spec.deniedSyscalls != [] && Distinct(spec.deniedSyscalls)
    && (spec.ioctlNumber == 0 <==> spec.deniedIoctls == [])
    && |spec.deniedIoctls| <= 127 && Distinct(spec.deniedIoctls)
    && (spec.socketNumber == 0 <==> spec.allowedSocketFamilies == [])
    && |spec.allowedSocketFamilies| <= 253 && Distinct(spec.allowedSocketFamilies)
    && FilterLength(spec) <= MAX_INSTRUCTIONS
  }

  function FilterLength(spec: Spec): nat {
    5 + 2 * |spec.deniedSyscalls|
    + (if spec.rejectedNumberMask != 0 then 2 else 0)
    + (if spec.deniedIoctls != [] then 3 + 2 * |spec.deniedIoctls| else 0)
    + (if spec.allowedSocketFamilies != [] then 4 + |spec.allowedSocketFamilies| else 0)
  }

  // ----- the blocks the compiler emits -----

  function ArchBlock(arch: Word): seq<SockFilter> {
    [ Statement(LOAD, ARCH_OFFSET),
      Jump(JUMP_EQUAL, arch, 1, 0),
      Statement(RETURN, KILL_PROCESS),
      Statement(LOAD, NUMBER_OFFSET) ]
  }

  function MaskBlock(mask: Word): seq<SockFilter> {
    if mask == 0 then [] else [Jump(JUMP_SET, mask, 0, 1), Statement(RETURN, DENY)]
  }

  /** Two instructions for each word: equality falls through to the denial. */
  function DenyEach(words: seq<Word>): (code: seq<SockFilter>)
    ensures |code| == 2 * |words|
  {
    if words == [] then []
    else DenyEach(words[..|words| - 1]) + [Jump(JUMP_EQUAL, words[|words| - 1], 0, 1), Statement(RETURN, DENY)]
  }

  function IoctlBlock(number: Word, denied: seq<Word>): seq<SockFilter> {
    if denied == [] then []
    else
      [Jump(JUMP_EQUAL, number, 0, Uint8(1 + 2 * |denied|)), Statement(LOAD, ARGUMENT1_OFFSET)]
      + DenyEach(denied) + [Statement(LOAD, NUMBER_OFFSET)]
  }

  /** One jump for each of the first `count` families, each over all that remain and the denial. */
  function FamilyJumps(families: seq<Word>, count: nat): (code: seq<SockFilter>)
    requires count <= |families|
    ensures |code| == count
  {
    if count == 0 then []
    else FamilyJumps(families, count - 1)
         + [Jump(JUMP_EQUAL, families[count - 1], Uint8(|families| - (count - 1)), 0)]
  }

  function SocketBlock(number: Word, families: seq<Word>): seq<SockFilter> {
    if families == [] then []
    else
      [Jump(JUMP_EQUAL, number, 0, Uint8(2 + |families|)), Statement(LOAD, ARGUMENT0_OFFSET)]
      + FamilyJumps(families, |families|)
      + [Statement(RETURN, DENY), Statement(LOAD, NUMBER_OFFSET)]
  }

  function FromCalls(spec: Spec): seq<SockFilter> {
    DenyEach(spec.deniedSyscalls) + [Statement(RETURN, ALLOW)]
  }

  function FromSockets(spec: Spec): seq<SockFilter> {
    SocketBlock(spec.socketNumber, spec.allowedSocketFamilies) + FromCalls(spec)
  }

  function FromIoctls(spec: Spec): seq<SockFilter> {
    IoctlBlock(spec.ioctlNumber, spec.deniedIoctls) + FromSockets(spec)
  }

  function Program(spec: Spec): seq<SockFilter> {
    ArchBlock(spec.auditArch) + (MaskBlock(spec.rejectedNumberMask) + FromIoctls(spec))
  }

  // ----- what each block does before whatever follows it -----

  lemma RunArch(arch: Word, rest: seq<SockFilter>, acc: Word, call: Call)
    ensures Run(ArchBlock(arch) + rest, 0, acc, call)
         == if call.arch != arch then Some(KILL_PROCESS) else Run(rest, 0, call.number, call)
  {
    hide Run;
    var program := ArchBlock(arch) + rest;
    OnLoad(program, 0, ARCH_OFFSET, acc, call);
    OnEqual(program, 1, arch, 1, 0, call.arch, call);
    if call.arch == arch {
      OnLoad(program, 3, NUMBER_OFFSET, call.arch, call);
      Enter(ArchBlock(arch), rest, call.number, call);
    } else {
      OnReturn(program, 2, KILL_PROCESS, call.arch, call);
    }
  }

  lemma RunMask(mask: Word, rest: seq<SockFilter>, acc: Word, call: Call)
    ensures Run(MaskBlock(mask) + rest, 0, acc, call)
         == if acc & mask != 0 then Some(DENY) else Run(rest, 0, acc, call)
  {
    hide Run;
    var program := MaskBlock(mask) + rest;
    if mask == 0 {
      assert program == rest;
      assert acc & 0 == 0;
    } else {
      OnSet(program, 0, mask, 0, 1, acc, call);
      OnReturn(program, 1, DENY, acc, call);
      Enter(MaskBlock(mask), rest, acc, call);
    }
  }

  lemma {:induction false} RunDenyEach(words: seq<Word>, rest: seq<SockFilter>, acc: Word, call: Call)
    ensures Run(DenyEach(words) + rest, 0, acc, call)
         == if acc in words then Some(DENY) else Run(rest, 0, acc, call)
    decreases |words|
  {
    hide Run;
    if words == [] {
      assert DenyEach(words) + rest == rest;
    } else {
      var front, last := words[..|words| - 1], words[|words| - 1];
      var pair := [Jump(JUMP_EQUAL, last, 0, 1), Statement(RETURN, DENY)];
      assert DenyEach(words) + rest == DenyEach(front) + (pair + rest);
      RunDenyEach(front, pair + rest, acc, call);
      OnEqual(pair + rest, 0, last, 0, 1, acc, call);
      OnReturn(pair + rest, 1, DENY, acc, call);
      Enter(pair, rest, acc, call);
      assert words == front + [last];
    }
  }

  /** The body of the ioctl block, entered with the request loaded. */
  lemma RunIoctlRequests(denied: seq<Word>, rest: seq<SockFilter>, call: Call)
    ensures Run(DenyEach(denied) + ([Statement(LOAD, NUMBER_OFFSET)] + rest), 0, call.argument1, call)
         == if call.argument1 in denied then Some(DENY) else Run(rest, 0, call.number, call)
  {
    hide Run;
    var reload := [Statement(LOAD, NUMBER_OFFSET)];
    RunDenyEach(denied, reload + rest, call.argument1, call);
    OnLoad(reload + rest, 0, NUMBER_OFFSET, call.argument1, call);
    Enter(reload, rest, call.number, call);
  }

  lemma RunIoctl(number: Word, denied: seq<Word>, rest: seq<SockFilter>, call: Call)
    requires |denied| <= 127
    ensures Run(IoctlBlock(number, denied) + rest, 0, call.number, call)
         == if denied != [] && call.number == number && call.argument1 in denied then Some(DENY)
            else Run(rest, 0, call.number, call)
  {
    hide Run;
    var block := IoctlBlock(number, denied);
    var program := block + rest;
    if denied == [] {
      assert program == rest;
    } else {
      var head := [Jump(JUMP_EQUAL, number, 0, 1 + 2 * |denied|), Statement(LOAD, ARGUMENT1_OFFSET)];
      var body := DenyEach(denied) + ([Statement(LOAD, NUMBER_OFFSET)] + rest);
      assert program == head + body;
      OnEqual(program, 0, number, 0, 1 + 2 * |denied|, call.number, call);
      if call.number == number {
        OnLoad(program, 1, ARGUMENT1_OFFSET, call.number, call);
        Enter(head, body, call.argument1, call);
        RunIoctlRequests(denied, rest, call);
      } else {
        assert program[2 + 2 * |denied|] == block[2 + 2 * |denied|];
        OnLoad(program, 2 + 2 * |denied|, NUMBER_OFFSET, call.number, call);
        Enter(block, rest, call.number, call);
      }
    }
  }

  lemma {:induction false} FamilyJumpAt(families: seq<Word>, count: nat, i: nat)
    requires i < count <= |families|
    ensures FamilyJumps(families, count)[i] == Jump(JUMP_EQUAL, families[i], Uint8(|families| - i), 0)
  {
    if i < count - 1 {
      FamilyJumpAt(families, count - 1, i);
    }
  }

  /** Where the socket block's instructions stand. */
  lemma SocketLayout(number: Word, families: seq<Word>, rest: seq<SockFilter>)
    requires 0 < |families| <= 253
    ensures var n, program := |families|, SocketBlock(number, families) + rest;
            && |SocketBlock(number, families)| == n + 4
            && program[0] == Jump(JUMP_EQUAL, number, 0, 2 + n)
            && program[1] == Statement(LOAD, ARGUMENT0_OFFSET)
            && (forall i :: 0 <= i < n ==> program[2 + i] == Jump(JUMP_EQUAL, families[i], n - i, 0))
            && program[2 + n] == Statement(RETURN, DENY)
            && program[3 + n] == Statement(LOAD, NUMBER_OFFSET)
  {
    var block, jumps := SocketBlock(number, families), FamilyJumps(families, |families|);
    forall i | 0 <= i < |families| ensures block[2 + i] == Jump(JUMP_EQUAL, families[i], |families| - i, 0) {
      FamilyJumpAt(families, |families|, i);
      assert block[2 + i] == jumps[i];
    }
  }

  /** From jump `i` on: a listed family leaves to the reload, any other reaches the denial. */
  lemma {:induction false} RunFamilies(number: Word, families: seq<Word>, rest: seq<SockFilter>, i: nat, call: Call)
    requires 0 < |families| <= 253 && i <= |families|
    ensures Run(SocketBlock(number, families) + rest, 2 + i, call.argument0, call)
         == if call.argument0 !in families[i..] then Some(DENY)
            else Run(SocketBlock(number, families) + rest, 3 + |families|, call.argument0, call)
    decreases |families| - i
  {
    hide Run;
    hide SocketBlock;
    var program, n := SocketBlock(number, families) + rest, |families|;
    SocketLayout(number, families, rest);
    if i == n {
      OnReturn(program, 2 + n, DENY, call.argument0, call);
    } else {
      RunFamilies(number, families, rest, i + 1, call);
      OnEqual(program, 2 + i, families[i], n - i, 0, call.argument0, call);
      assert families[i..] == [families[i]] + families[i + 1..];
    }
  }

  lemma RunSocket(number: Word, families: seq<Word>, rest: seq<SockFilter>, call: Call)
    requires |families| <= 253
    ensures Run(SocketBlock(number, families) + rest, 0, call.number, call)
         == if families != [] && call.number == number && call.argument0 !in families then Some(DENY)
            else Run(rest, 0, call.number, call)
  {
    hide Run;
    var block := SocketBlock(number, families);
    var program, last := block + rest, 3 + |families|;
    if families == [] {
      assert program == rest;
    } else {
      hide SocketBlock;
      SocketLayout(number, families, rest);
      OnEqual(program, 0, number, 0, 2 + |families|, call.number, call);
      Enter(block, rest, call.number, call);
      if call.number == number {
        OnLoad(program, 1, ARGUMENT0_OFFSET, call.number, call);
        RunFamilies(number, families, rest, 0, call);
        assert families[0..] == families;
        OnLoad(program, last, NUMBER_OFFSET, call.argument0, call);
      } else {
        OnLoad(program, last, NUMBER_OFFSET, call.number, call);
      }
    }
  }

  lemma RunFromIoctls(spec: Spec, call: Call)
    requires |spec.deniedIoctls| <= 127 && |spec.allowedSocketFamilies| <= 253
    requires call.arch == spec.auditArch && call.number & spec.rejectedNumberMask == 0
    ensures Run(FromIoctls(spec), 0, call.number, call) == Some(Verdict(spec, call))
  {
    RunIoctl(spec.ioctlNumber, spec.deniedIoctls, FromSockets(spec), call);
    RunSocket(spec.socketNumber, spec.allowedSocketFamilies, FromCalls(spec), call);
    RunDenyEach(spec.deniedSyscalls, [Statement(RETURN, ALLOW)], call.number, call);
  }

  /**
   Compiler correctness: on every call, an accepted specification's program stays inside
   itself, returns, and returns the policy's verdict.
   */
  lemma ProgramDecidesPolicy(spec: Spec, acc: Word, call: Call)
    requires |spec.deniedIoctls| <= 127 && |spec.allowedSocketFamilies| <= 253
    ensures Run(Program(spec), 0, acc, call) == Some(Verdict(spec, call))
  {
    RunArch(spec.auditArch, MaskBlock(spec.rejectedNumberMask) + FromIoctls(spec), acc, call);
    RunMask(spec.rejectedNumberMask, FromIoctls(spec), call.number, call);
    if call.arch == spec.auditArch && call.number & spec.rejectedNumberMask == 0 {
      RunFromIoctls(spec, call);
    }
  }

  // ----- the compiler itself -----

  method HasDuplicate(words: seq<Word>) returns (duplicate: bool)
    ensures duplicate <==> !Distinct(words)
  {
    var seen: set<Word> := {};
    for i := 0 to |words|
      invariant seen == (set k | 0 <= k < i :: words[k])
      invariant Distinct(words[..i])
    {
      if words[i] in seen {
        var k :| 0 <= k < i && words[k] == words[i];
        return true;
      }
      seen := seen + {words[i]};
      assert words[..i + 1] == words[..i] + [words[i]];
    }
    assert words[..|words|] == words;
    return false;
  }

  /** Fails exactly on the specifications the policy form rules out; otherwise a correct program. */
  method BuildSandboxSeccompFilter(spec: Spec) returns (filter: Option<seq<SockFilter>>)
    ensures filter.Some? <==> Accepted(spec)
    ensures filter.Some? ==> |filter.value| == FilterLength(spec) <= MAX_INSTRUCTIONS
    ensures filter.Some? ==> forall acc, call :: Run(filter.value, 0, acc, call) == Some(Verdict(spec, call))
  {
    if spec.auditArch == 0 || spec.deniedSyscalls == [] {
      return None;
    }
    var duplicateCalls := HasDuplicate(spec.deniedSyscalls);
    if duplicateCalls || (spec.ioctlNumber == 0) != (spec.deniedIoctls == []) || |spec.deniedIoctls| > 127 {
      return None;
    }
    var duplicateIoctls := HasDuplicate(spec.deniedIoctls);
    if duplicateIoctls || (spec.socketNumber == 0) != (spec.allowedSocketFamilies == [])
       || |spec.allowedSocketFamilies| > 253 {
      return None;
    }
    var duplicateFamilies := HasDuplicate(spec.allowedSocketFamilies);
    if duplicateFamilies {
      return None;
    }
    var length := 5 + 2 * |spec.deniedSyscalls|;
    if spec.rejectedNumberMask != 0 {
      length := length + 2;
    }
    if |spec.deniedIoctls| != 0 {
      length := length + 3 + 2 * |spec.deniedIoctls|;
    }
    if |spec.allowedSocketFamilies| != 0 {
      length := length + 4 + |spec.allowedSocketFamilies|;
    }
    if length > MAX_INSTRUCTIONS {
      return None;
    }
    var code := Emit(spec);
    ProgramLength(spec);
    forall acc, call ensures Run(code, 0, acc, call) == Some(Verdict(spec, call)) {
      ProgramDecidesPolicy(spec, acc, call);
    }
    return Some(code);
  }

  lemma ProgramLength(spec: Spec)
    ensures |Program(spec)| == FilterLength(spec)
  {
    assert |SocketBlock(spec.socketNumber, spec.allowedSocketFamilies)|
        == if spec.allowedSocketFamilies != [] then 4 + |spec.allowedSocketFamilies| else 0;
    assert |IoctlBlock(spec.ioctlNumber, spec.deniedIoctls)|
        == if spec.deniedIoctls != [] then 3 + 2 * |spec.deniedIoctls| else 0;
  }

  lemma Reassociate<T>(a: seq<T>, b: seq<T>, c: seq<T>, d: seq<T>, e: seq<T>)
    ensures a + b + c + d + e == a + (b + (c + (d + e)))
  {
  }

  /** Appends the blocks one after the other. */
  method Emit(spec: Spec) returns (filter: seq<SockFilter>)
    ensures filter == Program(spec)
  {
    hide DenyEach;
    hide IoctlBlock;
    hide SocketBlock;
    filter := [
      Statement(LOAD, ARCH_OFFSET),
      Jump(JUMP_EQUAL, spec.auditArch, 1, 0),
      Statement(RETURN, KILL_PROCESS),
      Statement(LOAD, NUMBER_OFFSET)
    ];
    if spec.rejectedNumberMask != 0 {
      filter := filter + [Jump(JUMP_SET, spec.rejectedNumberMask, 0, 1), Statement(RETURN, DENY)];
    }
    assert filter == ArchBlock(spec.auditArch) + MaskBlock(spec.rejectedNumberMask);
    filter := AppendIoctls(filter, spec.ioctlNumber, spec.deniedIoctls);
    filter := AppendSockets(filter, spec.socketNumber, spec.allowedSocketFamilies);
    ghost var blocks := filter;
    filter := AppendDenials(filter, spec.deniedSyscalls);
    filter := filter + [Statement(RETURN, ALLOW)];
    assert filter == blocks + FromCalls(spec);
    Reassociate(ArchBlock(spec.auditArch), MaskBlock(spec.rejectedNumberMask),
                IoctlBlock(spec.ioctlNumber, spec.deniedIoctls),
                SocketBlock(spec.socketNumber, spec.allowedSocketFamilies), FromCalls(spec));
  }

  method AppendIoctls(start: seq<SockFilter>, number: Word, denied: seq<Word>) returns (filter: seq<SockFilter>)
    ensures filter == start + IoctlBlock(number, denied)
  {
    filter := start;
    if |denied| != 0 {
      filter := filter + [Jump(JUMP_EQUAL, number, 0, Uint8(1 + 2 * |denied|)), Statement(LOAD, ARGUMENT1_OFFSET)];
      filter := AppendDenials(filter, denied);
      filter := filter + [Statement(LOAD, NUMBER_OFFSET)];
    }
  }

  method AppendFamilies(start: seq<SockFilter>, families: seq<Word>) returns (filter: seq<SockFilter>)
    ensures filter == start + FamilyJumps(families, |families|)
  {
    filter := start;
    for index := 0 to |families|
      invariant filter == start + FamilyJumps(families, index)
    {
      filter := filter + [Jump(JUMP_EQUAL, families[index], Uint8(|families| - index), 0)];
    }
  }

  method AppendSockets(start: seq<SockFilter>, number: Word, families: seq<Word>) returns (filter: seq<SockFilter>)
    ensures filter == start + SocketBlock(number, families)
  {
    hide FamilyJumps;
    filter := start;
    if |families| != 0 {
      var load := [Jump(JUMP_EQUAL, number, 0, Uint8(2 + |families|)), Statement(LOAD, ARGUMENT0_OFFSET)];
      var reload := [Statement(RETURN, DENY), Statement(LOAD, NUMBER_OFFSET)];
      filter := filter + load;
      filter := AppendFamilies(filter, families);
      filter := filter + reload;
      Regroup(start, load, FamilyJumps(families, |families|), reload);
    }
  }

  lemma Regroup(a: seq<SockFilter>, b: seq<SockFilter>, c: seq<SockFilter>, d: seq<SockFilter>)
    ensures a + b + c + d == a + (b + c + d)
  {
  }

  method AppendDenials(start: seq<SockFilter>, words: seq<Word>) returns (filter: seq<SockFilter>)
    ensures filter == start + DenyEach(words)
  {
    filter := start;
    for i := 0 to |words|
      invariant filter == start + DenyEach(words[..i])
    {
      filter := filter + [Jump(JUMP_EQUAL, words[i], 0, 1), Statement(RETURN, DENY)];
      assert words[..i + 1][..i] == words[..i];
    }
    assert words[..|words|] == words;
  }
}
