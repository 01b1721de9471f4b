/** Stepper::unwindRegs: registers are rewritten in place, in the order in which std::map
    iterates over the rules, against the simultaneous update that the rules mean. */
module Unwind {
  import opened Machine
  import opened Cfa
  import Frame

  type Registers = map<string, Word>
  type Memory = Word -> Word

  /** operator[] of the register map: a register that was never set reads as zero. */
  function Get(regs: Registers, name: string): (w: Word)
    ensures name !in regs ==> w == 0
  {
    if name in regs then regs[name] else 0
  }

  // ---------------------------------------------------------------------------------------
  // The order of keys in a std::map<std::string, ...>

  predicate Leq(a: string, b: string) {
    if a == [] then true
    else if b == [] then false
    else a[0] < b[0] || (a[0] == b[0] && Leq(a[1..], b[1..]))
  }

  lemma {:induction false} LeqTotal(a: string, b: string)
    ensures Leq(a, b) || Leq(b, a)
    ensures Leq(a, b) && Leq(b, a) ==> a == b
  {
    if a != [] && b != [] && a[0] == b[0] {
      LeqTotal(a[1..], b[1..]);
      assert a == [a[0]] + a[1..] && b == [b[0]] + b[1..];
    }
  }

  lemma {:induction false} LeqTransitive(a: string, b: string, c: string)
    requires Leq(a, b) && Leq(b, c)
    ensures Leq(a, c)
  {
    if a != [] && a[0] == b[0] == c[0] {
      LeqTransitive(a[1..], b[1..], c[1..]);
    }
  }

  ghost predicate IsLeast(k: string, keys: set<string>) {
    k in keys && forall j :: j in keys ==> Leq(k, j)
  }

  lemma {:induction false} LeastExists(keys: set<string>)
    requires keys != {}
    ensures exists k :: IsLeast(k, keys)
  {
    var x :| x in keys;
    var rest := keys - {x};
    if rest == {} {
      LeqTotal(x, x);
      assert keys == {x};
      assert IsLeast(x, keys);
    } else {
      LeastExists(rest);
      var y :| IsLeast(y, rest);
      LeqTotal(x, y);
      LeqTotal(x, x);
      if Leq(x, y) {
        forall j | j in keys ensures Leq(x, j) {
          if j != x { LeqTransitive(x, y, j); }
        }
        assert IsLeast(x, keys);
      } else {
        assert IsLeast(y, keys);
      }
    }
  }

  /** The key the iteration visits first. */
  ghost function Least(keys: set<string>): (k: string)
    requires keys != {}
    ensures IsLeast(k, keys)
  {
    LeastExists(keys);
    var k :| IsLeast(k, keys);
    k
  }

  /** The strings agree up to n, and there a ends or has the smaller character. */
  predicate LessFrom(a: string, b: string, n: int) {
    0 <= n <= |a| && n <= |b| && a[..n] == b[..n] && (n == |a| || (n < |b| && a[n] < b[n]))
  }

  /** The order of std::string: at the first difference the smaller character comes first, and a
      prefix comes before what it begins. */
  lemma {:induction false} LeqMeans(a: string, b: string)
    ensures Leq(a, b) <==> exists n :: LessFrom(a, b, n)
  {
    if a == [] || (b != [] && a[0] < b[0]) {
      assert LessFrom(a, b, 0);
    } else if b != [] && a[0] == b[0] {
      LeqMeans(a[1..], b[1..]);
      if n :| LessFrom(a[1..], b[1..], n) {
        assert a[..n + 1] == [a[0]] + a[1..][..n] && b[..n + 1] == [b[0]] + b[1..][..n];
        assert LessFrom(a, b, n + 1);
      }
      if n :| LessFrom(a, b, n) {
        assert n > 0;
        assert a[1..][..n - 1] == a[..n][1..] && b[1..][..n - 1] == b[..n][1..];
        assert LessFrom(a[1..], b[1..], n - 1);
      }
    }
  }

  // ---------------------------------------------------------------------------------------
  // One rule

  /** The register that a rule's key assigns. */
  function Target(a: Arch, key: string): string {
    if key == CFA_KEY then SpName(a) else if key == RA_KEY then PcName(a) else key
  }

  /** The number a rule's operand stands for. */
  function Amount(op: Attr): Result<int, Error> {
    match op
    case Signed(i) => Ok(i)
    case Unsigned(u) => Ok(u)
    case _ => Err(NotAnInteger)
  }

  /** The value a rule gives its target: base is the register an offset counts from and same
      the target's present value. */
  function RuleValue(a: Arch, mem: Memory, key: string, rule: RegRule, base: Word, same: Word): Result<Word, Error> {
    var raw: Result<Word, Error> :=
      match rule.kind
      case RuleSame => Ok(same)
      case RuleOffset =>
        if key == CFA_KEY then Err(CfaNotValue)
        else
          (match Amount(rule.op)
           case Ok(n) => Ok(mem(Add(base, n)))
           case Err(e) => Err(e))
      case RuleValOffset =>
        (match Amount(rule.op)
         case Ok(n) => Ok(Add(base, n))
         case Err(e) => Err(e))
      case _ => Err(Unhandled);
    match raw
    case Err(e) => Err(e)
    case Ok(v) => Ok(if key == RA_KEY then Sub(v, MinInstrBytes(a)) else v)
  }

  /** The register an offset counts from. */
  function BaseName(a: Arch, key: string, rule: RegRule): string {
    if key == CFA_KEY && rule.kind == RuleValOffset then rule.reg else SpName(a)
  }

  function Update(a: Arch, mem: Memory, key: string, rule: RegRule, regs: Registers): Result<Registers, Error> {
    var t := Target(a, key);
    match RuleValue(a, mem, key, rule, Get(regs, BaseName(a, key, rule)), Get(regs, t))
    case Ok(v) => Ok(regs[t := v])
    case Err(e) => Err(e)
  }

  // ---------------------------------------------------------------------------------------
  // The in-place update

  ghost function Sequential(a: Arch, mem: Memory, rules: Rules, keys: set<string>, regs: Registers)
    : Result<Registers, Error>
    requires keys <= rules.Keys
    decreases keys
  {
    if keys == {} then Ok(regs)
    else
      var k := Least(keys);
      match Update(a, mem, k, rules[k], regs)
      case Err(e) => Err(e)
      case Ok(r) => Sequential(a, mem, rules, keys - {k}, r)
  }

  class Unwinder {
    const arch: Arch
    const mem: Memory
    var unwindRegisterValues: Registers

    constructor (arch: Arch, mem: Memory, registerValues: Registers)
      ensures this.arch == arch && this.mem == mem && unwindRegisterValues == registerValues
    {
      this.arch := arch;
      this.mem := mem;
      unwindRegisterValues := registerValues;
    }

    /** The loop of unwindRegs; the result says whether the stack pointer, the program counter
        and the frame base were all recovered. */
    method UnwindRegs(unwindInfo: Rules) returns (done: Result<bool, Error>)
      modifies this
      ensures match Sequential(arch, mem, unwindInfo, unwindInfo.Keys, old(unwindRegisterValues))
        case Ok(regs) =>
          && unwindRegisterValues == regs
          && done == Ok(CFA_KEY in unwindInfo && RA_KEY in unwindInfo && FbName(arch) in unwindInfo)
        case Err(e) => done == Err(e)
    {
      var doneSp, donePc, doneFb := false, false, false;
      var left := unwindInfo.Keys;
      while left != {}
        invariant left <= unwindInfo.Keys
        invariant Sequential(arch, mem, unwindInfo, left, unwindRegisterValues)
          == Sequential(arch, mem, unwindInfo, unwindInfo.Keys, old(unwindRegisterValues))
        invariant doneSp <==> CFA_KEY in unwindInfo.Keys - left
        invariant donePc <==> RA_KEY in unwindInfo.Keys - left
        invariant doneFb <==> FbName(arch) in unwindInfo.Keys - left
        decreases left
      {
        LeastExists(left);
        var k :| k in left && forall j :: j in left ==> Leq(k, j);
        LeqTotal(k, Least(left));
        var rule := unwindInfo[k];
        var regName := k;
        if k == CFA_KEY {
          regName := SpName(arch);
          doneSp := true;
        } else if k == RA_KEY {
          regName := PcName(arch);
          donePc := true;
        } else if k == FbName(arch) {
          doneFb := true;
        }
        var baseValue := Get(unwindRegisterValues, BaseName(arch, k, rule));
        var newValue := RuleValue(arch, mem, k, rule, baseValue, Get(unwindRegisterValues, regName));
        if newValue.Err? { return Err(newValue.error); }
        unwindRegisterValues := unwindRegisterValues[regName := newValue.value];
        left := left - {k};
      }
      return Ok(doneSp && donePc && doneFb);
    }
  }

  // ---------------------------------------------------------------------------------------
  // The simultaneous update

  /** Every rule can be applied. */
  predicate Applicable(rules: Rules) {
    forall k :: k in rules ==>
      rules[k].kind == RuleSame ||
      (Amount(rules[k].op).Ok? &&
        (rules[k].kind == RuleValOffset || (rules[k].kind == RuleOffset && k != CFA_KEY)))
  }

  /** Unwinding fails exactly when some rule is of a kind that is not handled: only same value,
      offset and value offset are, and the frame address cannot be a saved word. */
  lemma UnwindsExactly(a: Arch, mem: Memory, rules: Rules, old_: Registers)
    ensures Sequential(a, mem, rules, rules.Keys, old_).Ok? <==> Applicable(rules)
  {
    SequentialSucceeds(a, mem, rules, rules.Keys, old_);
  }

  predicate CanApply(key: string, rule: RegRule) {
    rule.kind == RuleSame ||
    ((rule.op.Signed? || rule.op.Unsigned?) &&
      (rule.kind == RuleValOffset || (rule.kind == RuleOffset && key != CFA_KEY)))
  }

  lemma {:induction false} SequentialSucceeds(a: Arch, mem: Memory, rules: Rules, keys: set<string>, regs: Registers)
    requires keys <= rules.Keys
    ensures Sequential(a, mem, rules, keys, regs).Ok? <==> forall k :: k in keys ==> CanApply(k, rules[k])
    decreases keys
  {
    if keys != {} {
      hide Get, BaseName, Target;
      var k := Least(keys);
      var r := Update(a, mem, k, rules[k], regs);
      assert r.Ok? <==> CanApply(k, rules[k]);
      if r.Ok? {
        SequentialSucceeds(a, mem, rules, keys - {k}, r.value);
      }
    }
  }

  /** What each kind of rule gives: the old value, a sum, or the word at it; the return address
      gives the program counter after one instruction is taken off. */
  lemma RulesMean(a: Arch, mem: Memory, key: string, reg: string, op: Attr, n: int, base: Word, same: Word)
    requires key != CFA_KEY && key != RA_KEY && (op == Signed(n) || op == Unsigned(n))
    ensures RuleValue(a, mem, key, RegRule(RuleSame, reg, op), base, same) == Ok(same)
    ensures RuleValue(a, mem, key, RegRule(RuleOffset, reg, op), base, same) == Ok(mem(Add(base, n)))
    ensures RuleValue(a, mem, key, RegRule(RuleValOffset, reg, op), base, same) == Ok(Add(base, n))
    ensures RuleValue(a, mem, RA_KEY, RegRule(RuleOffset, reg, op), base, same)
      == Ok(Sub(mem(Add(base, n)), if a.X86_64? then 1 else 4))
  {
  }

  /** The canonical frame address that the old registers give. */
  function FrameAddress(a: Arch, rules: Rules, old_: Registers): Word
    requires Applicable(rules)
  {
    if CFA_KEY in rules && rules[CFA_KEY].kind == RuleValOffset then
      Add(Get(old_, rules[CFA_KEY].reg), Amount(rules[CFA_KEY].op).value)
    else Get(old_, SpName(a))
  }

  function ValueOf(a: Arch, mem: Memory, rules: Rules, key: string, base: Word, old_: Registers): Word
    requires Applicable(rules) && key in rules
  {
    RuleValue(a, mem, key, rules[key], base, Get(old_, Target(a, key))).value
  }

  /** A register of the caller, from the callee's registers alone: the stack pointer is the
      frame address unless it has a rule of its own, a register with a rule has its value, the
      program counter follows the return address rule, and all others are unchanged. */
  function Caller(a: Arch, mem: Memory, rules: Rules, old_: Registers, name: string): Word
    requires Applicable(rules)
  {
    var cfa := FrameAddress(a, rules, old_);
    if name == PcName(a) && RA_KEY in rules then ValueOf(a, mem, rules, RA_KEY, cfa, old_)
    else if name in rules && name != CFA_KEY && name != RA_KEY then ValueOf(a, mem, rules, name, cfa, old_)
    else if name == SpName(a) then cfa
    else Get(old_, name)
  }

  /** No rule is named after the program counter, and " " sorts before every other key. */
  predicate ProperKeys(a: Arch, keys: set<string>) {
    PcName(a) !in keys && forall k :: k in keys ==> Leq(CFA_KEY, k)
  }

  /** The stack pointer that a rule's offset counts from when the rules other than the frame
      address rule are applied in order: it changes once the stack pointer's own rule has run. */
  function BaseFor(a: Arch, mem: Memory, rules: Rules, keys: set<string>, key: string, regs: Registers): Word
    requires Applicable(rules) && keys <= rules.Keys
  {
    var sp := SpName(a);
    if sp in keys && key != sp && Leq(sp, key) then ValueOf(a, mem, rules, sp, Get(regs, sp), regs) else Get(regs, sp)
  }

  /** The first key in order counts from the present stack pointer, and changes only its target. */
  lemma FirstUpdate(a: Arch, mem: Memory, rules: Rules, keys: set<string>, regs: Registers)
    requires Applicable(rules) && keys <= rules.Keys && keys != {} && CFA_KEY !in keys && PcName(a) !in keys
    ensures var k := Least(keys);
      && BaseFor(a, mem, rules, keys, k, regs) == Get(regs, SpName(a))
      && Update(a, mem, k, rules[k], regs)
        == Ok(regs[Target(a, k) := ValueOf(a, mem, rules, k, Get(regs, SpName(a)), regs)])
  {
    var k := Least(keys);
    LeqTotal(k, SpName(a));
  }

  /** What a later key computes is not disturbed, except that the stack pointer may now be
      the one its own rule gives. */
  lemma LaterUpdate(a: Arch, mem: Memory, rules: Rules, keys: set<string>, regs: Registers, k: string)
    requires Applicable(rules) && keys <= rules.Keys && CFA_KEY !in keys && PcName(a) !in keys
    requires k in keys && k != Least(keys)
    ensures var l := Least(keys);
      var next := Update(a, mem, l, rules[l], regs).value;
      ValueOf(a, mem, rules, k, BaseFor(a, mem, rules, keys - {l}, k, next), next)
      == ValueOf(a, mem, rules, k, BaseFor(a, mem, rules, keys, k, regs), regs)
  {
  }

  lemma {:induction false} SequentialAfterFrameAddress(a: Arch, mem: Memory, rules: Rules, keys: set<string>,
                                                       regs: Registers)
    requires Applicable(rules) && keys <= rules.Keys && CFA_KEY !in keys && PcName(a) !in keys
    ensures Sequential(a, mem, rules, keys, regs).Ok?
    ensures var r := Sequential(a, mem, rules, keys, regs).value;
      && (forall k :: k in keys ==>
           Get(r, Target(a, k)) == ValueOf(a, mem, rules, k, BaseFor(a, mem, rules, keys, k, regs), regs))
      && (forall n :: (n == RA_KEY || n !in keys) && !(n == PcName(a) && RA_KEY in keys) ==> Get(r, n) == Get(regs, n))
    decreases keys
  {
    if keys != {} {
      var l := Least(keys);
      FirstUpdate(a, mem, rules, keys, regs);
      var next := Update(a, mem, l, rules[l], regs).value;
      SequentialAfterFrameAddress(a, mem, rules, keys - {l}, next);
      var r := Sequential(a, mem, rules, keys - {l}, next).value;
      assert Sequential(a, mem, rules, keys, regs) == Ok(r);
      hide Update, BaseFor, ValueOf;
      forall k | k in keys
        ensures Get(r, Target(a, k)) == ValueOf(a, mem, rules, k, BaseFor(a, mem, rules, keys, k, regs), regs)
      {
        if k == l {
          assert Get(r, Target(a, l)) == Get(next, Target(a, l));
        } else {
          LaterUpdate(a, mem, rules, keys, regs, k);
        }
      }
    }
  }

  // ---------------------------------------------------------------------------------------
  // Main results

  /** The registers once the frame address rule has run. */
  function AfterFrameAddress(a: Arch, rules: Rules, old_: Registers): Registers
    requires Applicable(rules)
  {
    if CFA_KEY in rules then old_[SpName(a) := FrameAddress(a, rules, old_)] else old_
  }

  lemma OnlyStackPointerChanges(a: Arch, rules: Rules, old_: Registers)
    requires Applicable(rules)
    ensures Get(AfterFrameAddress(a, rules, old_), SpName(a)) == FrameAddress(a, rules, old_)
    ensures forall n :: n != SpName(a) ==> Get(AfterFrameAddress(a, rules, old_), n) == Get(old_, n)
  {
  }

  /** The frame address rule runs first, because its key sorts first; only then do the others. */
  lemma FrameAddressComesFirst(a: Arch, mem: Memory, rules: Rules, old_: Registers)
    requires Applicable(rules) && ProperKeys(a, rules.Keys)
    ensures Sequential(a, mem, rules, rules.Keys, old_) ==
      Sequential(a, mem, rules, rules.Keys - {CFA_KEY}, AfterFrameAddress(a, rules, old_))
  {
    if CFA_KEY in rules {
      LeqTotal(CFA_KEY, Least(rules.Keys));
      assert Least(rules.Keys) == CFA_KEY;
    } else {
      assert rules.Keys - {CFA_KEY} == rules.Keys;
    }
  }

  /** A rule for the stack pointer itself is read as the last word on it and nothing that
      sorts after it depends on it. */
  predicate StackPointerRuleIsLast(a: Arch, rules: Rules) {
    SpName(a) in rules ==> rules[SpName(a)].kind != RuleSame && forall k :: k in rules ==> Leq(k, SpName(a))
  }

  /** A rule then computes what it means, when nothing sorts after the stack pointer. */
  lemma ComputesFromFrameAddress(a: Arch, mem: Memory, rules: Rules, old_: Registers, k: string)
    requires Applicable(rules) && StackPointerRuleIsLast(a, rules) && k in rules && k != CFA_KEY
    ensures var regs := AfterFrameAddress(a, rules, old_);
      ValueOf(a, mem, rules, k, BaseFor(a, mem, rules, rules.Keys - {CFA_KEY}, k, regs), regs)
      == ValueOf(a, mem, rules, k, FrameAddress(a, rules, old_), old_)
  {
    hide Leq, FrameAddress, AfterFrameAddress;
    OnlyStackPointerChanges(a, rules, old_);
    LeqTotal(k, SpName(a));
  }

  /** The in-place update is the simultaneous one. */
  lemma InPlaceIsSimultaneous(a: Arch, mem: Memory, rules: Rules, old_: Registers)
    requires Applicable(rules) && ProperKeys(a, rules.Keys) && StackPointerRuleIsLast(a, rules)
    ensures var r := Sequential(a, mem, rules, rules.Keys, old_);
      r.Ok? && forall n :: Get(r.value, n) == Caller(a, mem, rules, old_, n)
  {
    hide Leq, Sequential, Update, FrameAddress, AfterFrameAddress, ValueOf, BaseFor, Get;
    var keys, regs := rules.Keys - {CFA_KEY}, AfterFrameAddress(a, rules, old_);
    FrameAddressComesFirst(a, mem, rules, old_);
    SequentialAfterFrameAddress(a, mem, rules, keys, regs);
    OnlyStackPointerChanges(a, rules, old_);
    var r := Sequential(a, mem, rules, keys, regs).value;
    forall n ensures Get(r, n) == Caller(a, mem, rules, old_, n) {
      var k := if n == PcName(a) then RA_KEY else n;
      if k in rules && k != CFA_KEY && (k == RA_KEY ==> n == PcName(a)) {
        ComputesFromFrameAddress(a, mem, rules, old_, k);
        assert k in keys && Target(a, k) == n;
      } else {
        assert Get(r, n) == Get(regs, n);
      }
    }
  }

  /** A register whose key sorts after a saved stack pointer's, as "x29" does after "sp", is
      read relative to the restored stack pointer instead of the frame address. */
  lemma StackPointerRuleMisleads(a: Arch, mem: Memory, rules: Rules, old_: Registers, k: string)
    requires Applicable(rules) && ProperKeys(a, rules.Keys)
    requires SpName(a) in rules && rules[SpName(a)].kind == RuleOffset
    requires k in rules && k != CFA_KEY && k != RA_KEY && k != SpName(a) && Leq(SpName(a), k)
    requires rules[k].kind == RuleOffset
    ensures var r := Sequential(a, mem, rules, rules.Keys, old_);
      var cfa := FrameAddress(a, rules, old_);
      var sp := mem(Add(cfa, Amount(rules[SpName(a)].op).value));
      && r.Ok? && Get(r.value, k) == mem(Add(sp, Amount(rules[k].op).value))
      && Caller(a, mem, rules, old_, k) == mem(Add(cfa, Amount(rules[k].op).value))
  {
    hide Leq, Sequential, Update, FrameAddress, AfterFrameAddress, Get;
    var keys, regs := rules.Keys - {CFA_KEY}, AfterFrameAddress(a, rules, old_);
    FrameAddressComesFirst(a, mem, rules, old_);
    SequentialAfterFrameAddress(a, mem, rules, keys, regs);
    OnlyStackPointerChanges(a, rules, old_);
    assert k in keys && Target(a, k) == k;
  }

  lemma X86KeysSortBeforeSp(k: string, reg: int)
    requires k == RA_KEY || k == CFA_KEY || RegName(X86_64, reg) == Some(k)
    ensures Leq(CFA_KEY, k) && Leq(k, "rsp") && k != "rip"
  {
  }

  lemma A64KeysSortAfterCfa(k: string, reg: int)
    requires k == RA_KEY || k == CFA_KEY || RegName(AArch64, reg) == Some(k)
    ensures Leq(CFA_KEY, k) && k != "pc"
  {
  }

  /** The in-place update of some registers is the simultaneous one. */
  ghost predicate Agrees(a: Arch, mem: Memory, rules: Rules, old_: Registers)
    requires Applicable(rules)
  {
    var r := Sequential(a, mem, rules, rules.Keys, old_);
    r.Ok? && forall n :: Get(r.value, n) == Caller(a, mem, rules, old_, n)
  }

  lemma AddCancels(x: Word, y: Word, n: int)
    requires Add(x, n) == Add(y, n)
    ensures x == y
  {
  }

  /** Memory that holds one value at an address and another everywhere else. */
  function Marked(at: Word, here: Word, elsewhere: Word): Memory {
    (x: Word) => if x == at then here else elsewhere
  }

  /** When a saved register sorts after a saved stack pointer, some memory shows the difference. */
  lemma SomeMemoryMisleads(a: Arch, rules: Rules, old_: Registers, k: string) returns (mem: Memory)
    requires Applicable(rules) && ProperKeys(a, rules.Keys)
    requires SpName(a) in rules && rules[SpName(a)].kind == RuleOffset
    requires k in rules && k != CFA_KEY && k != RA_KEY && k != SpName(a) && Leq(SpName(a), k)
    requires rules[k].kind == RuleOffset
    ensures !Agrees(a, mem, rules, old_)
  {
    hide Leq, Sequential, FrameAddress, Caller;
    var cfa := FrameAddress(a, rules, old_);
    var n, m := Amount(rules[k].op).value, Amount(rules[SpName(a)].op).value;
    var here: Word := if cfa == 1 then 2 else 1;
    var elsewhere: Word := if cfa == 0 then 3 else 0;
    mem := Marked(Add(cfa, n), here, elsewhere);
    var sp := mem(Add(cfa, m));
    if Add(sp, n) == Add(cfa, n) {
      AddCancels(sp, cfa, n);
    }
    StackPointerRuleMisleads(a, mem, rules, old_, k);
  }

  /** Every key but the frame address's has an offset rule, as unwindInfo makes them. */
  predicate OffsetRules(rules: Rules) {
    forall k :: k in rules && k != CFA_KEY ==> rules[k].kind == RuleOffset
  }

  /** In-place and simultaneous update agree on every memory exactly when no rule sorts after
      one for the stack pointer. */
  lemma AgreesExactly(a: Arch, rules: Rules, old_: Registers)
    requires Applicable(rules) && ProperKeys(a, rules.Keys) && OffsetRules(rules)
    ensures (forall mem: Memory :: Agrees(a, mem, rules, old_)) <==> StackPointerRuleIsLast(a, rules)
  {
    hide Sequential, Caller, Leq;
    if StackPointerRuleIsLast(a, rules) {
      forall mem: Memory ensures Agrees(a, mem, rules, old_) {
        InPlaceIsSimultaneous(a, mem, rules, old_);
      }
    } else {
      var k :| k in rules && !Leq(k, SpName(a));
      LeqTotal(k, SpName(a));
      ReturnAddressSortsBefore(a);
      var mem := SomeMemoryMisleads(a, rules, old_, k);
    }
  }

  lemma ReturnAddressSortsBefore(a: Arch)
    ensures Leq(RA_KEY, SpName(a)) && Leq(CFA_KEY, SpName(a))
  {
  }

  /** What unwindInfo builds is unwound as the rules mean, on every memory, exactly when no
      rule sorts after one for the stack pointer; on x86-64 that is always so. */
  lemma UnwindInfoIsUnwoundSimultaneously(a: Arch, fde: Frame.FDE, pc: Word, old_: Registers)
    requires fde.startAddr <= pc <= fde.endAddr
    requires Frame.Interpret(a, fde.cie, fde.Program(), fde.startAddr, map[], pc).rules.Ok?
    ensures var rules := Frame.Interpret(a, fde.cie, fde.Program(), fde.startAddr, map[], pc).rules.value;
      && Applicable(rules)
      && ((forall mem: Memory :: Agrees(a, mem, rules, old_)) <==> StackPointerRuleIsLast(a, rules))
      && (a.X86_64? || SpName(a) !in rules ==> StackPointerRuleIsLast(a, rules))
  {
    hide Agrees, Leq, Frame.Interpret;
    var rules := Frame.Interpret(a, fde.cie, fde.Program(), fde.startAddr, map[], pc).rules.value;
    Frame.InterpretIsWellFormed(a, fde.cie, fde.Program(), fde.startAddr, map[], pc);
    forall k | k in rules
      ensures Leq(CFA_KEY, k) && k != PcName(a) && (a.X86_64? ==> Leq(k, "rsp"))
    {
      var reg: int :| k == RA_KEY || k == CFA_KEY || RegName(a, reg) == Some(k);
      if a.X86_64? { X86KeysSortBeforeSp(k, reg); } else { A64KeysSortAfterCfa(k, reg); }
    }
    AgreesExactly(a, rules, old_);
  }

  /** An AArch64 entry that saves the stack pointer and then the frame base. */
  const SAVES_STACK_POINTER := Frame.FDE(Frame.CIE(4, -8, 30, []), 0, 64,
    [CFA(DEF_CFA, Unsigned(31), Unsigned(32)), CFA(OFFSET_REG0 + 31, Unsigned(1), NoAttr),
     CFA(OFFSET_REG0 + 29, Unsigned(2), NoAttr)])

  lemma NameOfFrameBase()
    ensures RegName(AArch64, 29) == Some("x29")
  {
    assert DIGITS[29 / 10] == '2' && DIGITS[29 % 10] == '9';
    assert "x" + ['2', '9'] == "x29";
  }

  lemma RulesOfSaves(pc: Word)
    ensures var f := SAVES_STACK_POINTER;
      Frame.Interpret(AArch64, f.cie, f.Program(), 0, map[], pc).rules == Ok(map[
        CFA_KEY := RegRule(RuleValOffset, "sp", Signed(32)),
        "sp" := RegRule(RuleOffset, "sp", Signed(-8)),
        "x29" := RegRule(RuleOffset, "x29", Signed(-16))])
  {
    var f := SAVES_STACK_POINTER;
    var def, sp, fb := f.instructions[0], f.instructions[1], f.instructions[2];
    var p := f.Program();
    assert p == [def, sp, fb] && p[1..] == [sp, fb] && p[1..][1..] == [fb] && p[1..][1..][1..] == [];
    assert ToSigned(32) == 32 && ToSigned(-8) == -8 && ToSigned(-16) == -16;
    var r1: Rules := map[CFA_KEY := RegRule(RuleValOffset, "sp", Signed(32))];
    assert Frame.Apply(AArch64, f.cie, map[], def) == Ok(r1);
    var r2 := r1["sp" := RegRule(RuleOffset, "sp", Signed(-8))];
    assert Frame.Apply(AArch64, f.cie, r1, sp) == Ok(r2);
    NameOfFrameBase();
    var r3 := r2["x29" := RegRule(RuleOffset, "x29", Signed(-16))];
    assert Frame.Apply(AArch64, f.cie, r2, fb) == Ok(r3);
    assert Frame.Interpret(AArch64, f.cie, [fb], 0, r2, pc).rules == Ok(r3);
    assert Frame.Interpret(AArch64, f.cie, [sp, fb], 0, r1, pc).rules == Ok(r3);
    assert Frame.Interpret(AArch64, f.cie, p, 0, map[], pc).rules == Ok(r3);
    assert r3 == map[
      CFA_KEY := RegRule(RuleValOffset, "sp", Signed(32)),
      "sp" := RegRule(RuleOffset, "sp", Signed(-8)),
      "x29" := RegRule(RuleOffset, "x29", Signed(-16))];
  }

  /** What unwindInfo gives for that entry is unwound wrongly on some memory, from any registers. */
  lemma SavedStackPointerFails(pc: Word, old_: Registers) returns (mem: Memory)
    requires SAVES_STACK_POINTER.startAddr <= pc <= SAVES_STACK_POINTER.endAddr
    ensures var f := SAVES_STACK_POINTER;
      var rules := Frame.Interpret(AArch64, f.cie, f.Program(), f.startAddr, map[], pc).rules;
      && rules.Ok? && Applicable(rules.value) && !StackPointerRuleIsLast(AArch64, rules.value)
      && !Agrees(AArch64, mem, rules.value, old_)
  {
    hide Frame.Interpret, Agrees;
    var f := SAVES_STACK_POINTER;
    RulesOfSaves(pc);
    UnwindInfoIsUnwoundSimultaneously(AArch64, f, pc, old_);
    var rules := Frame.Interpret(AArch64, f.cie, f.Program(), f.startAddr, map[], pc).rules.value;
    SpSortsBeforeX29();
    KeysOfSaves(rules);
    mem := SomeMemoryMisleads(AArch64, rules, old_, "x29");
  }

  lemma SpSortsBeforeX29()
    ensures Leq("sp", "x29") && !Leq("x29", "sp")
  {
  }

  lemma KeysOfSaves(rules: Rules)
    requires rules.Keys == {CFA_KEY, "sp", "x29"}
    ensures ProperKeys(AArch64, rules.Keys)
  {
    A64KeysSortAfterCfa(CFA_KEY, 0);
    A64KeysSortAfterCfa("sp", 31);
    NameOfFrameBase();
    A64KeysSortAfterCfa("x29", 29);
  }

  // ---------------------------------------------------------------------------------------
  // From instructions to registers

  lemma AddSigned(x: Word, n: int)
    ensures Add(x, ToSigned(n)) == Add(x, n)
  {
    var u := n % WORD_SIZE;
    if ToSigned(n) == u {
      AddRemainder(x, n);
    } else {
      AddRemainder(x, n);
      assert Add(x, u - WORD_SIZE) == Add(x, u);
    }
  }

  lemma AddRemainder(x: Word, n: int)
    ensures Add(x, n % 0x1_0000_0000_0000_0000) == Add(x, n)
  {
  }

  /** Section 6.4.2.2: after def_cfa the frame address is the old value of the register plus
      the offset. */
  lemma DefCfaGivesFrameAddress(a: Arch, cie: Frame.CIE, rules: Rules, reg: int, offset: int, old_: Registers)
    requires RegName(a, reg).Some? && Applicable(rules)
    ensures var r := Frame.Apply(a, cie, rules, CFA(0x0c, Unsigned(reg), Unsigned(offset)));
      && r.Ok? && Applicable(r.value)
      && FrameAddress(a, r.value, old_) == Add(Get(old_, RegName(a, reg).value), offset)
  {
    AddSigned(Get(old_, RegName(a, reg).value), offset);
  }

  /** Section 6.4.2.3: after an offset instruction the caller's register is the word at the frame
      address plus the factored offset; where the register is the return address it is the
      program counter, less one instruction.  No other register of the caller changes. */
  lemma OffsetGivesSavedWord(a: Arch, mem: Memory, cie: Frame.CIE, rules: Rules, reg: nat, factored: int,
                             old_: Registers)
    requires reg < 64 && (reg == cie.raCol || RegName(a, reg).Some?) && Applicable(rules)
    ensures var r := Frame.Apply(a, cie, rules, CFA(0x80 + reg, Unsigned(factored), NoAttr));
      var key := if reg == cie.raCol then RA_KEY else RegName(a, reg).value;
      var saved := mem(Add(FrameAddress(a, rules, old_), factored * cie.dataAlign));
      && r.Ok? && Applicable(r.value)
      && Caller(a, mem, r.value, old_, Target(a, key))
        == (if key == RA_KEY then Sub(saved, MinInstrBytes(a)) else saved)
      && forall n :: n != Target(a, key) ==> Caller(a, mem, r.value, old_, n) == Caller(a, mem, rules, old_, n)
  {
    hide Frame.Apply, RegName, Add, Sub, ToSigned, Caller, FrameAddress, Applicable;
    var n := factored * cie.dataAlign;
    Frame.ApplyOffset(a, cie, rules, reg, factored);
    AddSigned(FrameAddress(a, rules, old_), n);
    if reg != cie.raCol {
      Frame.NamesAreNoKeys(a, reg);
      NamesAreNoCounter(a, reg);
    }
    var key := if reg == cie.raCol then RA_KEY else RegName(a, reg).value;
    CallerAfterOffset(a, mem, rules, key, ToSigned(n), old_);
  }

  lemma CallerAfterOffset(a: Arch, mem: Memory, rules: Rules, key: string, n: int, old_: Registers)
    requires Applicable(rules) && key != CFA_KEY && key != PcName(a)
    ensures var r := rules[key := RegRule(RuleOffset, key, Signed(n))];
      var saved := mem(Add(FrameAddress(a, rules, old_), n));
      && Applicable(r)
      && Caller(a, mem, r, old_, Target(a, key)) == (if key == RA_KEY then Sub(saved, MinInstrBytes(a)) else saved)
      && forall m :: m != Target(a, key) ==> Caller(a, mem, r, old_, m) == Caller(a, mem, rules, old_, m)
  {
    hide Add, Sub, Get;
    var r := rules[key := RegRule(RuleOffset, key, Signed(n))];
    assert forall k :: k in r && k != key ==> r[k] == rules[k];
    assert FrameAddress(a, r, old_) == FrameAddress(a, rules, old_);
    assert key in r && r[key].kind == RuleOffset;
  }

  lemma NamesAreNoCounter(a: Arch, reg: int)
    ensures RegName(a, reg).Some? ==> RegName(a, reg).value != PcName(a)
  {
    if RegName(a, reg).Some? {
      var v := RegName(a, reg).value;
      if a.AArch64? {
        assert v[0] == 'x' || v == "sp";
        assert "pc"[0] == 'p' && "sp"[0] == 's';
      } else {
        X86KeysSortBeforeSp(v, reg);
      }
    }
  }
}
