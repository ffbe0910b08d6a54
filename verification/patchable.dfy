/**
 The SBF "simplify patchable" machine pass. A load whose address is the
 LD_imm64 of a relocation global (a field offset or a type id) is removed: its
 users are rewired to the global's register, and with an access-offset global
 the users that access memory through it, or shift by it, become CORE pseudo
 instructions that carry the relocation.
 */
module SimplifyPatchable {
  import opened Machine
  import opened DefUse

  // ---------------------------------------------------------------------------
  // Opcode classes

  /** Store of an immediate in the selected encoding. */
  predicate IsST(cfg: Config, op: Opcode)
  {
    var e := MemEnc(cfg);
    op == Mem(STB_imm(e)) || op == Mem(STH_imm(e)) || op == Mem(STW_imm(e)) || op == Mem(STD_imm(e))
  }

  /** Store of a 32-bit sub-register in the selected encoding. */
  predicate IsSTX32(cfg: Config, op: Opcode)
  {
    var e := MemEnc(cfg);
    op == Mem(STB32(e)) || op == Mem(STH32(e)) || op == Mem(STW32(e))
  }

  /** Store of a 64-bit register in the selected encoding. */
  predicate IsSTX64(cfg: Config, op: Opcode)
  {
    var e := MemEnc(cfg);
    op == Mem(STB(e)) || op == Mem(STH(e)) || op == Mem(STW(e)) || op == Mem(STD(e))
  }

  /** Load into a 32-bit sub-register in the selected encoding. */
  predicate IsLDX32(cfg: Config, op: Opcode)
  {
    var e := MemEnc(cfg);
    op == Mem(LDB32(e)) || op == Mem(LDH32(e)) || op == Mem(LDW32(e))
  }

  /** Load into a 64-bit register in the selected encoding. */
  predicate IsLDX64(cfg: Config, op: Opcode)
  {
    var e := MemEnc(cfg);
    op == Mem(LDB(e)) || op == Mem(LDH(e)) || op == Mem(LDW(e)) || op == Mem(LDD(e))
  }

  /** A load in the encoding the target selects. */
  predicate IsLoadInst(cfg: Config, op: Opcode)
  {
    IsLDX32(cfg, op) || IsLDX64(cfg, op)
  }

  /** The load classes are the memory opcodes that load, of the one register
      width, in the selected encoding; loads of the other encoding belong to
      none. */
  lemma LoadClassesMatchShape(cfg: Config, op: Opcode)
    ensures var f := MemShape(op);
            var sel := f.Some? && f.value.enc == MemEnc(cfg) && f.value.access == Load;
            && (IsLDX64(cfg, op) <==> sel && !f.value.narrow)
            && (IsLDX32(cfg, op) <==> sel && f.value.narrow)
            && (IsLoadInst(cfg, op) <==> sel)
  {
  }

  /** The store classes are the memory opcodes that store a register of the
      one width, or an immediate, in the selected encoding. */
  lemma StoreClassesMatchShape(cfg: Config, op: Opcode)
    ensures var f := MemShape(op);
            var sel := f.Some? && f.value.enc == MemEnc(cfg);
            && (IsSTX64(cfg, op) <==> sel && f.value.access == StoreReg && !f.value.narrow)
            && (IsSTX32(cfg, op) <==> sel && f.value.access == StoreReg && f.value.narrow)
            && (IsST(cfg, op) <==> sel && f.value.access == StoreImm)
  {
  }

  // ---------------------------------------------------------------------------
  // Pass state and edits

  /** The function's instructions, the loads set aside for good (SkipInsts)
      and the next unused instruction identity. */
  datatype State = State(code: Code, skip: set<nat>, next: nat)

  /** `b` follows from `a` by edits in place: the same positions, a skip set
      and an identity counter that only grow, and every instruction keeping
      its identity or carrying a fresh one. */
  ghost predicate Advances(a: State, b: State)
  {
    && |b.code| == |a.code| && a.skip <= b.skip && a.next <= b.next
    && forall p :: 0 <= p < |a.code| ==> b.code[p].id == a.code[p].id || a.next <= b.code[p].id
  }

  /** Identities are distinct and below the counter. */
  ghost predicate WellNumbered(st: State)
  {
    && (forall p :: 0 <= p < |st.code| ==> st.code[p].id < st.next)
    && (forall p, p' :: 0 <= p < p' < |st.code| ==> st.code[p].id != st.code[p'].id)
  }

  /** No instruction has identity `x`. */
  ghost predicate Absent(code: Code, x: nat)
  {
    forall p :: 0 <= p < |code| ==> code[p].id != x
  }

  /** The instruction at `p` replaced by a new one built in its place. */
  function Replace(st: State, p: nat, mi: Instr): (r: State)
    requires p < |st.code|
    ensures |r.code| == |st.code|
  {
    State(st.code[p := Node(st.next, mi)], st.skip, st.next + 1)
  }

  // ---------------------------------------------------------------------------
  // checkADDrr: memory accesses through `R = ADD_rr base, reloc`

  /** The CORE pseudo a memory user of the relocated address becomes. */
  function CoreFor(cfg: Config, op: Opcode): Option<Opcode>
  {
    var e := MemEnc(cfg);
    if IsLDX64(cfg, op) then Some(Core(CORE_LD64(e)))
    else if IsLDX32(cfg, op) then Some(Core(CORE_LD32(e)))
    else if IsSTX64(cfg, op) || IsSTX32(cfg, op) || IsST(cfg, op) then Some(Core(CORE_ST(e)))
    else None
  }

  /** The fused form of a memory user `u`: its first operand, its opcode as an
      immediate, the base register and the relocation global. */
  function Fuse(c: Opcode, u: Instr, base: Operand, g: GlobalValue): Instr
    requires |u.ops| > 0
  {
    Instr(c, [u.ops[0], OpcodeImm(u.opcode), base, Global(g)])
  }

  /** One use of `R`: a load or store at offset 0 through `R` becomes a CORE
      pseudo, unless `R` has no unique definition or the store writes `R`
      itself. A use that is no longer there is passed over. */
  function FuseUser(cfg: Config, st: State, s: Site, R: nat, base: Operand, g: GlobalValue): (r: State)
    ensures |r.code| == |st.code|
  {
    if !IsUseSite(st.code, R, s) || UniqueDef(st.code, R).None? then st
    else
      var u := st.code[s.pos].mi;
        match CoreFor(cfg, u.opcode)
      case None => st
      case Some(c) =>
        if |u.ops| < 3 || u.ops[2] != Imm(0) then st
        else if (IsSTX64(cfg, u.opcode) || IsSTX32(cfg, u.opcode)) && u.ops[0].Reg? && u.ops[0].reg == R then st
        else Replace(st, s.pos, Fuse(c, u, base, g))
  }

  /** FuseUser over the use list `sites[n..]`. */
  function FuseFrom(cfg: Config, st: State, sites: seq<Site>, n: nat, R: nat, base: Operand, g: GlobalValue): (r: State)
    ensures |r.code| == |st.code|
    decreases |sites| - n
  {
    if n >= |sites| then st
    else FuseFrom(cfg, FuseUser(cfg, st, sites[n], R, base, g), sites, n + 1, R, base, g)
  }

  /** The ADD_rr at `p` reads the relocated register as operand `q`; its other
      source operand is the base of the fused accesses. */
  function CheckADDrr(cfg: Config, st: State, p: nat, q: nat, g: GlobalValue): (r: State)
    requires p < |st.code|
    ensures |r.code| == |st.code|
  {
    var add := st.code[p].mi;
    if |add.ops| < 3 || !add.ops[0].Reg? then st
    else
      var base := if q == 1 then add.ops[2] else add.ops[1];
      var R := add.ops[0].reg;
      FuseFrom(cfg, st, UseSites(st.code, R), 0, R, base, g)
  }

  // ---------------------------------------------------------------------------
  // checkShift

  /** The shift at `p` by the relocated register becomes CORE_SHIFT carrying
      the immediate form `tag`, when that register is its operand 2. */
  function CheckShift(st: State, p: nat, q: nat, tag: AluOp, g: GlobalValue): (r: State)
    requires p < |st.code| && q < |st.code[p].mi.ops|
    ensures |r.code| == |st.code|
  {
    if q != 2 then st
    else
      var mi := st.code[p].mi;
      Replace(st, p, Instr(Core(CORE_SHIFT), [mi.ops[0], OpcodeImm(Alu(tag)), mi.ops[1], Global(g)]))
  }

  // ---------------------------------------------------------------------------
  // processInst

  /** The instruction at `p` reads the relocated register as operand `q`. */
  function ProcessInst(cfg: Config, st: State, p: nat, q: nat, g: GlobalValue): (r: State)
    requires p < |st.code| && q < |st.code[p].mi.ops|
    ensures |r.code| == |st.code|
  {
    var op := st.code[p].mi.opcode;
    if IsLoadInst(cfg, op) then st.(skip := st.skip + {st.code[p].id})
    else if op == Alu(ADD_rr) then CheckADDrr(cfg, st, p, q, g)
    else if op == Alu(SLL_rr) then CheckShift(st, p, q, SLL_ri, g)
    else if op == Alu(SRA_rr) then CheckShift(st, p, q, SRA_ri, g)
    else if op == Alu(SRL_rr) then CheckShift(st, p, q, SRL_ri, g)
    else st
  }

  // ---------------------------------------------------------------------------
  // processDstReg

  /** A use of `dst` read from `src` instead, no longer marked as a kill. */
  function Forwarded(o: Operand, src: nat): Operand
    requires o.Reg?
  {
    o.(reg := src, isKill := false)
  }

  /** One entry of the use list of `dst`: with `doProp` the operand reads
      `src` instead; then, for an access-offset global, the instruction is
      examined when the register it now reads has a unique definition. */
  function ForwardUse(cfg: Config, st: State, s: Site, dst: nat, src: nat, g: GlobalValue,
                      doProp: bool, isAma: bool): (r: State)
    ensures |r.code| == |st.code|
  {
    if !IsUseSite(st.code, dst, s) then st
    else
      var o := st.code[s.pos].mi.ops[s.opnd];
      var code := if doProp then SetOperand(st.code, s.pos, s.opnd, Forwarded(o, src)) else st.code;
      var st1 := st.(code := code);
      if isAma && UniqueDef(code, if doProp then src else dst).Some? then ProcessInst(cfg, st1, s.pos, s.opnd, g)
      else st1
  }

  /** ForwardUse over the use list `sites[n..]`. */
  function ForwardFrom(cfg: Config, st: State, sites: seq<Site>, n: nat, dst: nat, src: nat,
                       g: GlobalValue, doProp: bool, isAma: bool): (r: State)
    ensures |r.code| == |st.code|
    decreases |sites| - n
  {
    if n >= |sites| then st
    else ForwardFrom(cfg, ForwardUse(cfg, st, sites[n], dst, src, g, doProp, isAma), sites, n + 1,
                     dst, src, g, doProp, isAma)
  }

  /** Walks the uses of `dst` as they stand on entry. */
  function ProcessDstReg(cfg: Config, st: State, dst: nat, src: nat, g: GlobalValue,
                         doProp: bool, isAma: bool): (r: State)
    ensures |r.code| == |st.code|
  {
    ForwardFrom(cfg, st, UseSites(st.code, dst), 0, dst, src, g, doProp, isAma)
  }

  // ---------------------------------------------------------------------------
  // processCandidate

  /** A removable load `dst = LD* src, 0` with `src = LD_imm64 gv`. */
  datatype Cand = Cand(dst: nat, src: nat, gv: GlobalValue, isAma: bool)

  /** One use of the 32-bit `dst`: a SUBREG_TO_REG widening it has its own
      uses examined. */
  function NarrowUser(cfg: Config, st: State, s: Site, dst: nat, g: GlobalValue): (r: State)
    ensures |r.code| == |st.code|
  {
    if !IsUseSite(st.code, dst, s) || UniqueDef(st.code, dst).None? then st
    else
      var mi := st.code[s.pos].mi;
      if mi.opcode == SUBREG_TO_REG && mi.ops[0].Reg? then ProcessDstReg(cfg, st, mi.ops[0].reg, dst, g, false, true)
      else st
  }

  /** NarrowUser over the use list `sites[n..]`. */
  function NarrowFrom(cfg: Config, st: State, sites: seq<Site>, n: nat, dst: nat, g: GlobalValue): (r: State)
    ensures |r.code| == |st.code|
    decreases |sites| - n
  {
    if n >= |sites| then st
    else NarrowFrom(cfg, NarrowUser(cfg, st, sites[n], dst, g), sites, n + 1, dst, g)
  }

  /** The COPY of the low 32 bits of `src` into `dst` that replaces a 32-bit
      candidate. */
  function NarrowCopy(c: Cand): Instr
  {
    Instr(COPY, [DefReg(c.dst), Reg(c.src, false, false, true)])
  }

  /** Handles the candidate load at `k`. `narrow` holds the 32-bit virtual
      registers. Returns the new state and the load's position. */
  function ProcessCandidate(cfg: Config, narrow: set<nat>, st: State, k: nat, c: Cand): (r: (State, nat))
    requires k < |st.code|
    ensures k <= r.1 < |r.0.code| && |r.0.code| - r.1 == |st.code| - k
  {
    if c.dst in narrow then
      var st1 := if c.isAma then NarrowFrom(cfg, st, UseSites(st.code, c.dst), 0, c.dst, c.gv) else st;
      (st1.(code := st1.code[..k] + [Node(st1.next, NarrowCopy(c))] + st1.code[k..], next := st1.next + 1), k + 1)
    else
      (ProcessDstReg(cfg, st, c.dst, c.src, c.gv, true, c.isAma), k)
  }

  // ---------------------------------------------------------------------------
  // removeLD

  /** The load at `k` as a candidate, if it is one. */
  function Candidate(cfg: Config, code: Code, k: nat, skip: set<nat>): Option<Cand>
    requires k < |code|
  {
    var mi := code[k].mi;
    if !IsLoadInst(cfg, mi.opcode) || code[k].id in skip then None
    else if |mi.ops| < 3 || !mi.ops[0].Reg? || !mi.ops[1].Reg? || mi.ops[2] != Imm(0) then None
    else
      var dst := mi.ops[0].reg;
      var src := mi.ops[1].reg;
      match UniqueDef(code, src)
      case None => None
      case Some(d) =>
        var def := code[d].mi;
        if def.opcode != Alu(LD_imm64) || |def.ops| < 2 || !def.ops[1].Global? then None
        else
          match def.ops[1].gv
          case Function(_) => None
          case Variable(_, ama, typeId) =>
            if ama then Some(Cand(dst, src, def.ops[1].gv, true))
            else if typeId then Some(Cand(dst, src, def.ops[1].gv, false))
            else None
  }

  /** One step of the walk at position `i`: the candidate processed last, at
      `i - 1`, is erased when `pending`, then the instruction now at the
      position is examined. Returns the state, where the walk resumes, and
      whether a candidate was processed (leaving it pending). */
  function Step(cfg: Config, narrow: set<nat>, st: State, i: nat, pending: bool): (r: (State, nat, bool))
    requires i < |st.code| && (pending ==> 0 < i)
    ensures 0 < r.1 <= |r.0.code| && |r.0.code| - r.1 < |st.code| - i
  {
    var code := if pending then st.code[..i - 1] + st.code[i..] else st.code;
    var k := if pending then i - 1 else i;
    var st1 := st.(code := code);
    match Candidate(cfg, code, k, st.skip)
    case None => (st1, k + 1, false)
    case Some(c) =>
      var (st2, at) := ProcessCandidate(cfg, narrow, st1, k, c);
      (st2, at + 1, true)
  }

  /** The walk over the instructions from position `i`; a candidate still
      pending at the end stays. */
  function ScanFrom(cfg: Config, narrow: set<nat>, st: State, i: nat, pending: bool, changed: bool): (r: (Code, bool))
    requires i <= |st.code| && (pending ==> 0 < i)
    decreases |st.code| - i
  {
    if i == |st.code| then (st.code, changed)
    else
      var (st1, j, hit) := Step(cfg, narrow, st, i, pending);
      ScanFrom(cfg, narrow, st1, j, hit, changed || hit)
  }

  /** A function's instructions numbered by position. */
  function Number(f: seq<Instr>): (code: Code)
    ensures |code| == |f|
  {
    seq(|f|, i requires 0 <= i < |f| => Node(i, f[i]))
  }

  /** The instructions without their identities. */
  function Instrs(code: Code): (f: seq<Instr>)
    ensures |f| == |code|
  {
    seq(|code|, i requires 0 <= i < |code| => code[i].mi)
  }

  /** removeLD over one function: the resulting instructions and whether any
      candidate was processed. */
  function RemoveLD(cfg: Config, narrow: set<nat>, f: seq<Instr>): (seq<Instr>, bool)
  {
    var r := ScanFrom(cfg, narrow, State(Number(f), {}, |f|), 0, false, false);
    (Instrs(r.0), r.1)
  }

  // ---------------------------------------------------------------------------
  // Which loads are removed

  /** The load at `k` is removable as `c`: a load in the selected encoding
      that is not set aside, of the form `c.dst = LD* c.src, 0`, where the only
      instruction defining `c.src` is an LD_imm64 of a global variable with the
      access-offset or the type-id attribute (the former taking precedence). */
  ghost predicate Removable(cfg: Config, code: Code, k: nat, skip: set<nat>, c: Cand)
  {
    && k < |code|
    && IsLoadInst(cfg, code[k].mi.opcode) && code[k].id !in skip
    && |code[k].mi.ops| >= 3 && code[k].mi.ops[2] == Imm(0)
    && code[k].mi.ops[0].Reg? && code[k].mi.ops[0].reg == c.dst
    && code[k].mi.ops[1].Reg? && code[k].mi.ops[1].reg == c.src
    && (exists d: nat :: OnlyDef(code, c.src, d) && code[d].mi.opcode == Alu(LD_imm64)
                         && |code[d].mi.ops| >= 2 && code[d].mi.ops[1] == Global(c.gv))
    && c.gv.Variable? && (c.gv.ama || c.gv.typeId) && c.isAma == c.gv.ama
  }

  lemma CandidateSpec(cfg: Config, code: Code, k: nat, skip: set<nat>, c: Cand)
    requires k < |code|
    ensures Candidate(cfg, code, k, skip) == Some(c) <==> Removable(cfg, code, k, skip, c)
  {
    var mi := code[k].mi;
    if |mi.ops| >= 3 && mi.ops[1].Reg? {
      UniqueDefSpec(code, mi.ops[1].reg);
    }
  }

  /** A load reached from the relocated register is set aside for good: the
      code is untouched and the load is never a candidate afterwards. */
  lemma LoadUserSetAside(cfg: Config, st: State, p: nat, q: nat, g: GlobalValue)
    requires p < |st.code| && q < |st.code[p].mi.ops| && IsLoadInst(cfg, st.code[p].mi.opcode)
    ensures var r := ProcessInst(cfg, st, p, q, g);
            && r.code == st.code && r.skip == st.skip + {st.code[p].id}
            && Candidate(cfg, r.code, p, r.skip).None?
  {
  }

  // ---------------------------------------------------------------------------
  // What the CORE pseudo instructions mean

  /** How the encoder reads a CORE pseudo once its relocation resolves to `v`:
      the recorded opcode applied to the first operand and the base operand,
      with `v` as the immediate. */
  function Emit(mi: Instr, v: int): Option<Instr>
  {
    if mi.opcode.Core? && |mi.ops| == 4 && mi.ops[1].OpcodeImm? then
      Some(Instr(mi.ops[1].tag, [mi.ops[0], mi.ops[2], Imm(v)]))
    else None
  }

  /** The immediate form of a register shift. */
  function ImmShift(a: AluOp): AluOp
  {
    match a
    case SLL_rr => SLL_ri
    case SRA_rr => SRA_ri
    case SRL_rr => SRL_ri
    case _ => a
  }

  /** A shift by the relocated register, as its operand 2, becomes CORE_SHIFT
      carrying the relocation global; emitted, it is the same shift in
      immediate form by the relocation's value. Nothing else changes; a shift of the relocated register itself
      stays. */
  lemma ShiftUserFused(cfg: Config, st: State, p: nat, q: nat, g: GlobalValue, v: int)
    requires p < |st.code| && q < |st.code[p].mi.ops|
    requires st.code[p].mi.opcode in {Alu(SLL_rr), Alu(SRA_rr), Alu(SRL_rr)}
    ensures var r := ProcessInst(cfg, st, p, q, g);
            var mi := st.code[p].mi;
            && (q != 2 ==> r == st)
            && (q == 2 ==>
                  && |r.code| == |st.code| && r.skip == st.skip
                  && (forall p' :: 0 <= p' < |st.code| && p' != p ==> r.code[p'] == st.code[p'])
                  && r.code[p].mi.opcode == Core(CORE_SHIFT)
                  && |r.code[p].mi.ops| == 4 && r.code[p].mi.ops[3] == Global(g)
                  && Emit(r.code[p].mi, v) == Some(Instr(Alu(ImmShift(mi.opcode.alu)), [mi.ops[0], mi.ops[1], Imm(v)])))
  {
  }

  // ---------------------------------------------------------------------------
  // The walk over the instructions

  lemma NumberInstrs(f: seq<Instr>)
    ensures Instrs(Number(f)) == f
  {
  }

  lemma {:induction false} ScanQuiet(cfg: Config, narrow: set<nat>, st: State, i: nat)
    requires i <= |st.code|
    requires forall k :: i <= k < |st.code| ==> Candidate(cfg, st.code, k, st.skip).None?
    ensures ScanFrom(cfg, narrow, st, i, false, false) == (st.code, false)
    decreases |st.code| - i
  {
    if i < |st.code| {
      assert Step(cfg, narrow, st, i, false) == (st.(code := st.code), i + 1, false);
      ScanQuiet(cfg, narrow, st.(code := st.code), i + 1);
    }
  }

  lemma {:induction false} ScanSticky(cfg: Config, narrow: set<nat>, st: State, i: nat, pending: bool)
    requires i <= |st.code| && (pending ==> 0 < i)
    ensures ScanFrom(cfg, narrow, st, i, pending, true).1
    decreases |st.code| - i
  {
    if i < |st.code| {
      var (st1, j, hit) := Step(cfg, narrow, st, i, pending);
      ScanSticky(cfg, narrow, st1, j, hit);
    }
  }

  lemma {:induction false} ScanFinds(cfg: Config, narrow: set<nat>, st: State, i: nat, k: nat, changed: bool)
    requires i <= k < |st.code| && Candidate(cfg, st.code, k, st.skip).Some?
    ensures ScanFrom(cfg, narrow, st, i, false, changed).1
    decreases k - i
  {
    var (st1, j, hit) := Step(cfg, narrow, st, i, false);
    if hit {
      ScanSticky(cfg, narrow, st1, j, true);
    } else {
      assert st1 == st.(code := st.code) && j == i + 1;
      ScanFinds(cfg, narrow, st1, j, k, changed);
    }
  }

  /** removeLD reports a change exactly when the function holds a removable
      load, and without one leaves the function as it was. */
  lemma RemoveLDChanged(cfg: Config, narrow: set<nat>, f: seq<Instr>)
    ensures RemoveLD(cfg, narrow, f).1 <==>
              exists k, c :: 0 <= k < |f| && Removable(cfg, Number(f), k, {}, c)
    ensures !RemoveLD(cfg, narrow, f).1 ==> RemoveLD(cfg, narrow, f).0 == f
  {
    var st := State(Number(f), {}, |f|);
    NumberInstrs(f);
    if k :| 0 <= k < |f| && Candidate(cfg, st.code, k, {}).Some? {
      ScanFinds(cfg, narrow, st, 0, k, false);
      CandidateSpec(cfg, st.code, k, {}, Candidate(cfg, st.code, k, {}).value);
    } else {
      ScanQuiet(cfg, narrow, st, 0);
      forall k, c | 0 <= k < |f|
        ensures !Removable(cfg, st.code, k, {}, c)
      {
        CandidateSpec(cfg, st.code, k, {}, c);
      }
    }
  }

  // ---------------------------------------------------------------------------
  // Forwarding the loaded register

  /** An operand after forwarding: a use of `dst` reads `src` instead and is
      no longer a kill; any other operand is as it was. */
  function Rewired(o: Operand, dst: nat, src: nat): Operand
  {
    if IsUseOf(o, dst) then Forwarded(o, src) else o
  }

  /** The first `n` entries of a use list. */
  function Seen(sites: seq<Site>, n: nat): set<Site>
  {
    set j | 0 <= j < n && j < |sites| :: sites[j]
  }

  /** `cur` is `orig` with the operands at the sites in `done` rewired; the
      identities, opcodes and operand counts are those of `orig`. */
  ghost predicate RewiredAt(orig: Code, cur: Code, dst: nat, src: nat, done: set<Site>)
  {
    && |cur| == |orig|
    && (forall p :: 0 <= p < |orig| ==>
          cur[p].id == orig[p].id && cur[p].mi.opcode == orig[p].mi.opcode && |cur[p].mi.ops| == |orig[p].mi.ops|)
    && (forall p, q :: 0 <= p < |orig| && 0 <= q < |orig[p].mi.ops| ==>
          cur[p].mi.ops[q] == if Site(p, q) in done then Rewired(orig[p].mi.ops[q], dst, src) else orig[p].mi.ops[q])
  }

  lemma ForwardUseStep(cfg: Config, st: State, s: Site, dst: nat, src: nat, g: GlobalValue,
                       orig: Code, done: set<Site>)
    requires RewiredAt(orig, st.code, dst, src, done) && IsUseSite(orig, dst, s)
    ensures var r := ForwardUse(cfg, st, s, dst, src, g, true, false);
            RewiredAt(orig, r.code, dst, src, done + {s}) && r.skip == st.skip && r.next == st.next
  {
    var o := orig[s.pos].mi.ops[s.opnd];
    assert Rewired(o, dst, src) == Forwarded(o, src);
    if s in done {
      assert Forwarded(Forwarded(o, src), src) == Forwarded(o, src);
      assert done + {s} == done;
    }
  }

  lemma {:induction false} ForwardFromSpec(cfg: Config, st: State, sites: seq<Site>, n: nat, dst: nat, src: nat,
                                           g: GlobalValue, orig: Code)
    requires n <= |sites| && RewiredAt(orig, st.code, dst, src, Seen(sites, n))
    requires forall j :: n <= j < |sites| ==> IsUseSite(orig, dst, sites[j])
    ensures var r := ForwardFrom(cfg, st, sites, n, dst, src, g, true, false);
            RewiredAt(orig, r.code, dst, src, Seen(sites, |sites|)) && r.skip == st.skip && r.next == st.next
    decreases |sites| - n
  {
    if n < |sites| {
      ForwardUseStep(cfg, st, sites[n], dst, src, g, orig, Seen(sites, n));
      assert Seen(sites, n) + {sites[n]} == Seen(sites, n + 1);
      ForwardFromSpec(cfg, ForwardUse(cfg, st, sites[n], dst, src, g, true, false), sites, n + 1, dst, src, g, orig);
    }
  }

  /** With a type-id global (no CORE rewriting), forwarding rewires every use
      of `dst` to read `src`, clearing its kill flag, and changes nothing
      else: same instructions, identities, opcodes and other operands. */
  lemma ForwardTypeId(cfg: Config, st: State, dst: nat, src: nat, g: GlobalValue)
    ensures var r := ProcessDstReg(cfg, st, dst, src, g, true, false);
            && |r.code| == |st.code| && r.skip == st.skip && r.next == st.next
            && (forall p :: 0 <= p < |st.code| ==>
                  && r.code[p].id == st.code[p].id && r.code[p].mi.opcode == st.code[p].mi.opcode
                  && |r.code[p].mi.ops| == |st.code[p].mi.ops|)
            && (forall p, q :: 0 <= p < |st.code| && 0 <= q < |st.code[p].mi.ops| ==>
                  r.code[p].mi.ops[q] == Rewired(st.code[p].mi.ops[q], dst, src))
  {
    var sites := UseSites(st.code, dst);
    UseSitesSpec(st.code, dst);
    assert Seen(sites, 0) == {};
    ForwardFromSpec(cfg, st, sites, 0, dst, src, g, st.code);
    var r := ProcessDstReg(cfg, st, dst, src, g, true, false);
    forall p, q | 0 <= p < |st.code| && 0 <= q < |st.code[p].mi.ops|
      ensures r.code[p].mi.ops[q] == Rewired(st.code[p].mi.ops[q], dst, src)
    {
      if IsUseOf(st.code[p].mi.ops[q], dst) {
        assert IsUseSite(st.code, dst, Site(p, q));
        var j :| 0 <= j < |sites| && sites[j] == Site(p, q);
        assert Site(p, q) in Seen(sites, |sites|);
      }
    }
  }

  /** Forwarding a register other than itself leaves `dst` without uses. */
  lemma ForwardLeavesNoUse(cfg: Config, st: State, dst: nat, src: nat, g: GlobalValue, s: Site)
    requires dst != src
    ensures !IsUseSite(ProcessDstReg(cfg, st, dst, src, g, true, false).code, dst, s)
  {
    ForwardTypeId(cfg, st, dst, src, g);
  }

  // ---------------------------------------------------------------------------
  // Fusing the accesses through the relocated address

  /** A user of `R` that checkADDrr turns into a CORE pseudo: a load or store
      of the selected encoding that reads `R`, has offset 0 and does not store
      `R` itself. */
  predicate Eligible(cfg: Config, u: Instr, R: nat)
  {
    && (exists q :: 0 <= q < |u.ops| && IsUseOf(u.ops[q], R))
    && CoreFor(cfg, u.opcode).Some? && |u.ops| >= 3 && u.ops[2] == Imm(0)
    && !((IsSTX64(cfg, u.opcode) || IsSTX32(cfg, u.opcode)) && u.ops[0].Reg? && u.ops[0].reg == R)
  }

  /** An instruction as checkADDrr leaves it. */
  function FusedForm(cfg: Config, u: Instr, R: nat, base: Operand, g: GlobalValue): Instr
  {
    if Eligible(cfg, u, R) then Fuse(CoreFor(cfg, u.opcode).value, u, base, g) else u
  }

  /** A memory instruction has its three operands, the second of which is not
      a definition. */
  predicate MemWellFormed(cfg: Config, mi: Instr)
  {
    CoreFor(cfg, mi.opcode).Some? ==> |mi.ops| == 3 && !(mi.ops[1].Reg? && mi.ops[1].isDef)
  }

  /** Once fused, an instruction is not fused again. */
  lemma FusedFormIdem(cfg: Config, u: Instr, R: nat, base: Operand, g: GlobalValue)
    ensures FusedForm(cfg, FusedForm(cfg, u, R, base, g), R, base, g) == FusedForm(cfg, u, R, base, g)
  {
  }

  lemma FusedFormDefines(cfg: Config, u: Instr, R: nat, base: Operand, g: GlobalValue)
    requires MemWellFormed(cfg, u) && !IsDefOf(base, R)
    ensures Defines(FusedForm(cfg, u, R, base, g), R) <==> Defines(u, R)
  {
    if Eligible(cfg, u, R) {
      var f := FusedForm(cfg, u, R, base, g);
      if Defines(u, R) {
        var q :| 0 <= q < |u.ops| && IsDefOf(u.ops[q], R);
        assert q == 0;
        assert IsDefOf(f.ops[0], R);
      }
      if Defines(f, R) {
        var q :| 0 <= q < |f.ops| && IsDefOf(f.ops[q], R);
        assert q == 0;
        assert IsDefOf(u.ops[0], R);
      }
    }
  }

  /** `cur` is `orig` with the instructions at the positions in `done` as
      checkADDrr leaves them. */
  ghost predicate FusedAt(cfg: Config, orig: Code, cur: Code, R: nat, base: Operand, g: GlobalValue, done: set<nat>)
  {
    && |cur| == |orig|
    && forall p :: 0 <= p < |orig| ==>
         cur[p].mi == if p in done then FusedForm(cfg, orig[p].mi, R, base, g) else orig[p].mi
  }

  lemma FusedAtUniqueDef(cfg: Config, orig: Code, cur: Code, R: nat, base: Operand, g: GlobalValue, done: set<nat>)
    requires FusedAt(cfg, orig, cur, R, base, g, done) && !IsDefOf(base, R)
    requires forall p :: 0 <= p < |orig| ==> MemWellFormed(cfg, orig[p].mi)
    ensures UniqueDef(cur, R) == UniqueDef(orig, R)
  {
    forall p | 0 <= p < |orig|
      ensures Defines(cur[p].mi, R) <==> Defines(orig[p].mi, R)
    {
      FusedFormDefines(cfg, orig[p].mi, R, base, g);
    }
    UniqueDefFrame(orig, cur, R);
  }

  lemma FuseUserEffect(cfg: Config, st: State, s: Site, R: nat, base: Operand, g: GlobalValue)
    requires UniqueDef(st.code, R).Some?
    ensures var r := FuseUser(cfg, st, s, R, base, g);
            && r.skip == st.skip
            && (forall p :: 0 <= p < |st.code| && p != s.pos ==> r.code[p] == st.code[p])
            && (IsUseSite(st.code, R, s) ==> r.code[s.pos].mi == FusedForm(cfg, st.code[s.pos].mi, R, base, g))
            && (!IsUseSite(st.code, R, s) ==> r == st)
  {
  }

  lemma FuseUserStep(cfg: Config, st: State, s: Site, R: nat, base: Operand, g: GlobalValue,
                     orig: Code, done: set<nat>)
    requires FusedAt(cfg, orig, st.code, R, base, g, done) && IsUseSite(orig, R, s)
    requires UniqueDef(st.code, R).Some?
    ensures var r := FuseUser(cfg, st, s, R, base, g);
            FusedAt(cfg, orig, r.code, R, base, g, done + {s.pos}) && r.skip == st.skip
  {
    FuseUserEffect(cfg, st, s, R, base, g);
    FusedFormIdem(cfg, orig[s.pos].mi, R, base, g);
  }

  lemma {:induction false} FuseFromSpec(cfg: Config, st: State, sites: seq<Site>, n: nat, R: nat, base: Operand,
                                        g: GlobalValue, orig: Code)
    requires n <= |sites| && FusedAt(cfg, orig, st.code, R, base, g, Positions(sites, n))
    requires forall j :: n <= j < |sites| ==> IsUseSite(orig, R, sites[j])
    requires UniqueDef(orig, R).Some? && !IsDefOf(base, R)
    requires forall p :: 0 <= p < |orig| ==> MemWellFormed(cfg, orig[p].mi)
    ensures var r := FuseFrom(cfg, st, sites, n, R, base, g);
            FusedAt(cfg, orig, r.code, R, base, g, Positions(sites, |sites|)) && r.skip == st.skip
    decreases |sites| - n
  {
    if n < |sites| {
      FusedAtUniqueDef(cfg, orig, st.code, R, base, g, Positions(sites, n));
      FuseUserStep(cfg, st, sites[n], R, base, g, orig, Positions(sites, n));
      assert Positions(sites, n) + {sites[n].pos} == Positions(sites, n + 1);
      FuseFromSpec(cfg, FuseUser(cfg, st, sites[n], R, base, g), sites, n + 1, R, base, g, orig);
    }
  }

  lemma {:induction false} FuseFromNoDef(cfg: Config, st: State, sites: seq<Site>, n: nat, R: nat, base: Operand,
                                         g: GlobalValue)
    requires UniqueDef(st.code, R).None?
    ensures FuseFrom(cfg, st, sites, n, R, base, g) == st
    decreases |sites| - n
  {
    if n < |sites| {
      FuseFromNoDef(cfg, st, sites, n + 1, R, base, g);
    }
  }

  /** The positions of the first `n` entries of a use list. */
  function Positions(sites: seq<Site>, n: nat): set<nat>
  {
    set j | 0 <= j < n && j < |sites| :: sites[j].pos
  }

  /** checkADDrr on `R = ADD_rr a, b` reached through operand `q`: when the
      ADD is the only definition of `R`, every eligible user of `R` becomes
      its CORE form with the other ADD operand as base, and every other
      instruction keeps its contents; otherwise nothing changes. */
  lemma CheckADDrrSpec(cfg: Config, st: State, p: nat, q: nat, g: GlobalValue)
    requires p < |st.code| && |st.code[p].mi.ops| >= 3 && st.code[p].mi.ops[0].Reg?
    requires forall p' :: 0 <= p' < |st.code| ==> MemWellFormed(cfg, st.code[p'].mi)
    requires var add := st.code[p].mi;
             !IsDefOf(if q == 1 then add.ops[2] else add.ops[1], add.ops[0].reg)
    ensures var add := st.code[p].mi;
            var R := add.ops[0].reg;
            var base := if q == 1 then add.ops[2] else add.ops[1];
            var r := CheckADDrr(cfg, st, p, q, g);
            && |r.code| == |st.code| && r.skip == st.skip
            && forall p' :: 0 <= p' < |st.code| ==>
                 r.code[p'].mi == if UniqueDef(st.code, R).Some? then FusedForm(cfg, st.code[p'].mi, R, base, g)
                                  else st.code[p'].mi
  {
    var add := st.code[p].mi;
    var R := add.ops[0].reg;
    var base := if q == 1 then add.ops[2] else add.ops[1];
    var sites := UseSites(st.code, R);
    if UniqueDef(st.code, R).Some? {
      UseSitesSpec(st.code, R);
      assert Positions(sites, 0) == {};
      FuseFromSpec(cfg, st, sites, 0, R, base, g, st.code);
      var r := CheckADDrr(cfg, st, p, q, g);
      forall p' | 0 <= p' < |st.code| && p' !in Positions(sites, |sites|)
        ensures FusedForm(cfg, st.code[p'].mi, R, base, g) == st.code[p'].mi
      {
        if Eligible(cfg, st.code[p'].mi, R) {
          var q' :| 0 <= q' < |st.code[p'].mi.ops| && IsUseOf(st.code[p'].mi.ops[q'], R);
          assert IsUseSite(st.code, R, Site(p', q'));
        }
      }
    } else {
      FuseFromNoDef(cfg, st, sites, 0, R, base, g);
    }
  }

  /** What a fused access means: the load or store through `R + 0` is, once
      emitted, the same access through the base register at the relocation's
      offset `v`. */
  lemma FusedAccess(cfg: Config, u: Instr, R: nat, base: Operand, g: GlobalValue, v: int)
    requires Eligible(cfg, u, R) && |u.ops| == 3 && IsUseOf(u.ops[1], R)
    ensures Emit(FusedForm(cfg, u, R, base, g), v) == Some(Instr(u.opcode, u.ops[1 := base][2 := Imm(v)]))
  {
    assert u.ops[1 := base][2 := Imm(v)] == [u.ops[0], base, Imm(v)];
  }

  // ---------------------------------------------------------------------------
  // The two ways a candidate is handled

  /** A candidate whose register is 32-bit is replaced by a COPY of the low
      32 bits of `src` into `dst`, inserted right before it, and the walk
      resumes after the load. With a type-id global that insertion is the
      only change: the uses of `dst` are left alone. */
  lemma NarrowCandidate(cfg: Config, narrow: set<nat>, st: State, k: nat, c: Cand)
    requires k < |st.code| && c.dst in narrow
    ensures var (r, at) := ProcessCandidate(cfg, narrow, st, k, c);
            && at == k + 1 && |r.code| == |st.code| + 1
            && r.code[k].mi == Instr(COPY, [DefReg(c.dst), Reg(c.src, false, false, true)])
            && (!c.isAma ==> r.code[..k] == st.code[..k] && r.code[k + 1..] == st.code[k..] && r.skip == st.skip)
  {
  }

  /** A candidate whose register is 64-bit stays where it is while every use
      of `dst` is made to read `src`; with a type-id global nothing else
      changes and no use of `dst` is left. */
  lemma WideCandidate(cfg: Config, narrow: set<nat>, st: State, k: nat, c: Cand)
    requires k < |st.code| && c.dst !in narrow && !c.isAma && c.dst != c.src
    ensures var (r, at) := ProcessCandidate(cfg, narrow, st, k, c);
            && at == k && |r.code| == |st.code| && r.skip == st.skip
            && (forall p :: 0 <= p < |st.code| ==>
                  r.code[p].mi.opcode == st.code[p].mi.opcode && |r.code[p].mi.ops| == |st.code[p].mi.ops|)
            && (forall p, q :: 0 <= p < |st.code| && 0 <= q < |st.code[p].mi.ops| ==>
                  r.code[p].mi.ops[q] == Rewired(st.code[p].mi.ops[q], c.dst, c.src))
            && (forall s :: !IsUseSite(r.code, c.dst, s))
  {
    ForwardTypeId(cfg, st, c.dst, c.src, c.gv);
    forall s
      ensures !IsUseSite(ProcessDstReg(cfg, st, c.dst, c.src, c.gv, true, false).code, c.dst, s)
    {
      ForwardLeavesNoUse(cfg, st, c.dst, c.src, c.gv, s);
    }
  }

  // ---------------------------------------------------------------------------
  // Edits without forwarding

  /** The shape of every CORE pseudo the pass builds: four operands, the last
      the relocation global. */
  predicate CoreShape(mi: Instr, g: GlobalValue)
  {
    mi.opcode.Core? && |mi.ops| == 4 && mi.ops[3] == Global(g)
  }

  /** `b` is `a` with some instructions replaced by CORE pseudo instructions
      for the global `g` and nothing else changed. */
  ghost predicate OnlyFused(a: Code, b: Code, g: GlobalValue)
  {
    |b| == |a| && forall p :: 0 <= p < |a| ==> b[p] == a[p] || CoreShape(b[p].mi, g)
  }

  lemma {:induction false} FuseFromOnlyFuses(cfg: Config, st: State, sites: seq<Site>, n: nat, R: nat, base: Operand,
                                             g: GlobalValue)
    ensures OnlyFused(st.code, FuseFrom(cfg, st, sites, n, R, base, g).code, g)
    decreases |sites| - n
  {
    if n < |sites| {
      FuseFromOnlyFuses(cfg, FuseUser(cfg, st, sites[n], R, base, g), sites, n + 1, R, base, g);
    }
  }

  lemma ProcessInstOnlyFuses(cfg: Config, st: State, p: nat, q: nat, g: GlobalValue)
    requires p < |st.code| && q < |st.code[p].mi.ops|
    ensures OnlyFused(st.code, ProcessInst(cfg, st, p, q, g).code, g)
  {
    var op := st.code[p].mi.opcode;
    if IsLoadInst(cfg, op) {
      assert ProcessInst(cfg, st, p, q, g).code == st.code;
    } else if op == Alu(ADD_rr) {
      assert ProcessInst(cfg, st, p, q, g) == CheckADDrr(cfg, st, p, q, g);
      CheckADDrrOnlyFuses(cfg, st, p, q, g);
    } else if op == Alu(SLL_rr) || op == Alu(SRA_rr) || op == Alu(SRL_rr) {
      var tag := if op == Alu(SLL_rr) then SLL_ri else if op == Alu(SRA_rr) then SRA_ri else SRL_ri;
      assert ProcessInst(cfg, st, p, q, g) == CheckShift(st, p, q, tag, g);
      CheckShiftOnlyFuses(st, p, q, tag, g);
    } else {
      assert ProcessInst(cfg, st, p, q, g) == st;
    }
  }

  lemma CheckADDrrOnlyFuses(cfg: Config, st: State, p: nat, q: nat, g: GlobalValue)
    requires p < |st.code|
    ensures OnlyFused(st.code, CheckADDrr(cfg, st, p, q, g).code, g)
  {
    var add := st.code[p].mi;
    if |add.ops| >= 3 && add.ops[0].Reg? {
      var base := if q == 1 then add.ops[2] else add.ops[1];
      FuseFromOnlyFuses(cfg, st, UseSites(st.code, add.ops[0].reg), 0, add.ops[0].reg, base, g);
    }
  }

  lemma CheckShiftOnlyFuses(st: State, p: nat, q: nat, tag: AluOp, g: GlobalValue)
    requires p < |st.code| && q < |st.code[p].mi.ops|
    ensures OnlyFused(st.code, CheckShift(st, p, q, tag, g).code, g)
  {
  }

  lemma {:induction false} ForwardFromOnlyFuses(cfg: Config, st: State, sites: seq<Site>, n: nat, dst: nat, src: nat,
                                                g: GlobalValue, isAma: bool)
    ensures OnlyFused(st.code, ForwardFrom(cfg, st, sites, n, dst, src, g, false, isAma).code, g)
    decreases |sites| - n
  {
    if n < |sites| {
      var s := sites[n];
      if IsUseSite(st.code, dst, s) && isAma && UniqueDef(st.code, dst).Some? {
        ProcessInstOnlyFuses(cfg, st, s.pos, s.opnd, g);
      }
      ForwardFromOnlyFuses(cfg, ForwardUse(cfg, st, s, dst, src, g, false, isAma), sites, n + 1, dst, src, g, isAma);
    }
  }

  lemma {:induction false} NarrowFromOnlyFuses(cfg: Config, st: State, sites: seq<Site>, n: nat, dst: nat, g: GlobalValue)
    ensures OnlyFused(st.code, NarrowFrom(cfg, st, sites, n, dst, g).code, g)
    decreases |sites| - n
  {
    if n < |sites| {
      var s := sites[n];
      if IsUseSite(st.code, dst, s) && UniqueDef(st.code, dst).Some? {
        var mi := st.code[s.pos].mi;
        if mi.opcode == SUBREG_TO_REG && mi.ops[0].Reg? {
          ForwardFromOnlyFuses(cfg, st, UseSites(st.code, mi.ops[0].reg), 0, mi.ops[0].reg, dst, g, true);
        }
      }
      NarrowFromOnlyFuses(cfg, NarrowUser(cfg, st, s, dst, g), sites, n + 1, dst, g);
    }
  }

  /** A 32-bit candidate of an access-offset global: besides the COPY before
      it, the only changes are instructions turned into CORE pseudos through
      the users of the SUBREG_TO_REG widenings of `dst`; no operand is
      rewired. */
  lemma NarrowAmaCandidate(cfg: Config, narrow: set<nat>, st: State, k: nat, c: Cand)
    requires k < |st.code| && c.dst in narrow && c.isAma
    ensures var (r, at) := ProcessCandidate(cfg, narrow, st, k, c);
            && at == k + 1 && |r.code| == |st.code| + 1
            && r.code[k].mi == Instr(COPY, [DefReg(c.dst), Reg(c.src, false, false, true)])
            && OnlyFused(st.code, r.code[..k] + r.code[k + 1..], c.gv)
  {
    var st1 := NarrowFrom(cfg, st, UseSites(st.code, c.dst), 0, c.dst, c.gv);
    NarrowFromOnlyFuses(cfg, st, UseSites(st.code, c.dst), 0, c.dst, c.gv);
    var (r, at) := ProcessCandidate(cfg, narrow, st, k, c);
    assert r.code[..k] + r.code[k + 1..] == st1.code;
  }

  // ---------------------------------------------------------------------------
  // Forwarding with an access-offset global

  /** `cur` is `orig` with every instruction either turned into a CORE pseudo
      for `g` or kept, with the operands at the sites in `done` rewired. */
  ghost predicate RewiredOrFusedAt(orig: Code, cur: Code, dst: nat, src: nat, g: GlobalValue, done: set<Site>)
  {
    && |cur| == |orig|
    && forall p :: 0 <= p < |orig| ==>
         || CoreShape(cur[p].mi, g)
         || (&& cur[p].mi.opcode == orig[p].mi.opcode && |cur[p].mi.ops| == |orig[p].mi.ops|
             && forall q :: 0 <= q < |orig[p].mi.ops| ==>
                  cur[p].mi.ops[q] == if Site(p, q) in done then Rewired(orig[p].mi.ops[q], dst, src)
                                      else orig[p].mi.ops[q])
  }

  lemma RewiredOrFusedKeeps(orig: Code, a: Code, b: Code, dst: nat, src: nat, g: GlobalValue, done: set<Site>)
    requires RewiredOrFusedAt(orig, a, dst, src, g, done) && OnlyFused(a, b, g)
    ensures RewiredOrFusedAt(orig, b, dst, src, g, done)
  {
  }

  lemma ForwardUseAmaStep(cfg: Config, st: State, s: Site, dst: nat, src: nat, g: GlobalValue,
                          orig: Code, done: set<Site>)
    requires RewiredOrFusedAt(orig, st.code, dst, src, g, done) && IsUseSite(orig, dst, s)
    ensures RewiredOrFusedAt(orig, ForwardUse(cfg, st, s, dst, src, g, true, true).code, dst, src, g, done + {s})
  {
    var o := orig[s.pos].mi.ops[s.opnd];
    assert Rewired(o, dst, src) == Forwarded(o, src);
    if !IsUseSite(st.code, dst, s) {
      if !st.code[s.pos].mi.opcode.Core? {
        assert s in done;
        assert done + {s} == done;
      }
    } else {
      var cur := st.code[s.pos].mi.ops[s.opnd];
      var code := SetOperand(st.code, s.pos, s.opnd, Forwarded(cur, src));
      if s in done && !st.code[s.pos].mi.opcode.Core? {
        assert Forwarded(Forwarded(o, src), src) == Forwarded(o, src);
      }
      assert RewiredOrFusedAt(orig, code, dst, src, g, done + {s});
      var st1 := st.(code := code);
      if UniqueDef(code, src).Some? {
        ProcessInstOnlyFuses(cfg, st1, s.pos, s.opnd, g);
        RewiredOrFusedKeeps(orig, code, ProcessInst(cfg, st1, s.pos, s.opnd, g).code, dst, src, g, done + {s});
      }
    }
  }

  lemma {:induction false} ForwardFromAma(cfg: Config, st: State, sites: seq<Site>, n: nat, dst: nat, src: nat,
                                          g: GlobalValue, orig: Code)
    requires n <= |sites| && RewiredOrFusedAt(orig, st.code, dst, src, g, Seen(sites, n))
    requires forall j :: n <= j < |sites| ==> IsUseSite(orig, dst, sites[j])
    ensures RewiredOrFusedAt(orig, ForwardFrom(cfg, st, sites, n, dst, src, g, true, true).code, dst, src,
                             g, Seen(sites, |sites|))
    decreases |sites| - n
  {
    if n < |sites| {
      ForwardUseAmaStep(cfg, st, sites[n], dst, src, g, orig, Seen(sites, n));
      assert Seen(sites, n) + {sites[n]} == Seen(sites, n + 1);
      ForwardFromAma(cfg, ForwardUse(cfg, st, sites[n], dst, src, g, true, true), sites, n + 1, dst, src, g, orig);
    }
  }

  /** With an access-offset global, forwarding leaves every instruction either
      as a CORE pseudo carrying `g` as its fourth operand, or as it was with its
      uses of `dst` reading `src`. */
  lemma ForwardAma(cfg: Config, st: State, dst: nat, src: nat, g: GlobalValue)
    ensures var r := ProcessDstReg(cfg, st, dst, src, g, true, true);
            && |r.code| == |st.code|
            && forall p :: 0 <= p < |st.code| ==>
                 || CoreShape(r.code[p].mi, g)
                 || (&& r.code[p].mi.opcode == st.code[p].mi.opcode
                     && |r.code[p].mi.ops| == |st.code[p].mi.ops|
                     && forall q :: 0 <= q < |st.code[p].mi.ops| ==>
                          r.code[p].mi.ops[q] == Rewired(st.code[p].mi.ops[q], dst, src))
  {
    var sites := UseSites(st.code, dst);
    UseSitesSpec(st.code, dst);
    assert Seen(sites, 0) == {};
    ForwardFromAma(cfg, st, sites, 0, dst, src, g, st.code);
    var r := ProcessDstReg(cfg, st, dst, src, g, true, true);
    forall p, q | 0 <= p < |st.code| && 0 <= q < |st.code[p].mi.ops| && IsUseOf(st.code[p].mi.ops[q], dst)
      ensures Site(p, q) in Seen(sites, |sites|)
    {
      assert IsUseSite(st.code, dst, Site(p, q));
      var j :| 0 <= j < |sites| && sites[j] == Site(p, q);
    }
  }

  /** A 64-bit candidate of an access-offset global stays where it is; every
      other instruction is either a CORE pseudo carrying the global or as it was with its uses of
      `dst` reading `src`, so a use of `dst` is left only inside a CORE
      pseudo. */
  lemma WideAmaCandidate(cfg: Config, narrow: set<nat>, st: State, k: nat, c: Cand)
    requires k < |st.code| && c.dst !in narrow && c.isAma && c.dst != c.src
    ensures var (r, at) := ProcessCandidate(cfg, narrow, st, k, c);
            && at == k && |r.code| == |st.code| && st.skip <= r.skip
            && (forall p :: 0 <= p < |st.code| ==>
                  || CoreShape(r.code[p].mi, c.gv)
                  || (&& r.code[p].mi.opcode == st.code[p].mi.opcode
                      && |r.code[p].mi.ops| == |st.code[p].mi.ops|
                      && forall q :: 0 <= q < |st.code[p].mi.ops| ==>
                           r.code[p].mi.ops[q] == Rewired(st.code[p].mi.ops[q], c.dst, c.src)))
            && (forall s :: IsUseSite(r.code, c.dst, s) ==> CoreShape(r.code[s.pos].mi, c.gv))
  {
    ForwardAma(cfg, st, c.dst, c.src, c.gv);
    ForwardFromEvolves(cfg, st, UseSites(st.code, c.dst), 0, c.dst, c.src, c.gv, true, true);
  }

  /** A type-id candidate never produces a CORE pseudo: with a 64-bit
      register every instruction keeps its opcode, with a 32-bit one the only
      new instruction is the COPY before the load. So the CORE pseudos left by
      earlier AMA candidates are exactly the ones there afterwards. */
  lemma TypeIdNoCore(cfg: Config, narrow: set<nat>, st: State, k: nat, c: Cand)
    requires k < |st.code| && !c.isAma
    ensures var r := ProcessCandidate(cfg, narrow, st, k, c).0;
            && (c.dst !in narrow ==>
                  |r.code| == |st.code|
                  && forall p :: 0 <= p < |st.code| ==> r.code[p].mi.opcode == st.code[p].mi.opcode)
            && (c.dst in narrow ==>
                  |r.code| == |st.code| + 1
                  && r.code[..k] == st.code[..k] && r.code[k + 1..] == st.code[k..]
                  && r.code[k].mi.opcode == COPY)
            && ((forall p :: 0 <= p < |st.code| ==> !st.code[p].mi.opcode.Core?) ==>
                  forall p :: 0 <= p < |r.code| ==> !r.code[p].mi.opcode.Core?)
  {
    if c.dst !in narrow {
      ForwardTypeId(cfg, st, c.dst, c.src, c.gv);
    } else {
      NarrowCandidate(cfg, narrow, st, k, c);
      var r := ProcessCandidate(cfg, narrow, st, k, c).0;
      forall p | 0 <= p < |r.code| && p != k
        ensures r.code[p].mi.opcode == st.code[if p < k then p else p - 1].mi.opcode
      {
        if p < k {
          assert r.code[p] == r.code[..k][p];
        } else {
          assert r.code[p] == r.code[k + 1..][p - k - 1];
        }
      }
    }
  }

  // ---------------------------------------------------------------------------
  // Identities and the skip set across edits

  /** `b` follows from `a` by edits in place that keep identities apart. */
  ghost predicate Evolves(a: State, b: State)
  {
    Advances(a, b) && (WellNumbered(a) ==> WellNumbered(b))
  }

  lemma EvolvesTrans(a: State, b: State, c: State)
    requires Evolves(a, b) && Evolves(b, c)
    ensures Evolves(a, c)
  {
  }

  lemma ReplaceEvolves(st: State)
    ensures forall p: nat, mi: Instr :: p < |st.code| ==> Evolves(st, Replace(st, p, mi))
  {
  }

  lemma FuseUserEvolves(cfg: Config, st: State, s: Site, R: nat, base: Operand, g: GlobalValue)
    ensures Evolves(st, FuseUser(cfg, st, s, R, base, g))
  {
    ReplaceEvolves(st);
  }

  lemma {:induction false} FuseFromEvolves(cfg: Config, st: State, sites: seq<Site>, n: nat, R: nat, base: Operand,
                                           g: GlobalValue)
    ensures Evolves(st, FuseFrom(cfg, st, sites, n, R, base, g))
    decreases |sites| - n
  {
    if n < |sites| {
      var mid := FuseUser(cfg, st, sites[n], R, base, g);
      FuseUserEvolves(cfg, st, sites[n], R, base, g);
      FuseFromEvolves(cfg, mid, sites, n + 1, R, base, g);
      EvolvesTrans(st, mid, FuseFrom(cfg, st, sites, n, R, base, g));
    }
  }

  lemma CheckADDrrEvolves(cfg: Config, st: State, p: nat, q: nat, g: GlobalValue)
    requires p < |st.code|
    ensures Evolves(st, CheckADDrr(cfg, st, p, q, g))
  {
    var add := st.code[p].mi;
    if |add.ops| >= 3 && add.ops[0].Reg? {
      var base := if q == 1 then add.ops[2] else add.ops[1];
      FuseFromEvolves(cfg, st, UseSites(st.code, add.ops[0].reg), 0, add.ops[0].reg, base, g);
    }
  }

  lemma CheckShiftEvolves(st: State, p: nat, q: nat, tag: AluOp, g: GlobalValue)
    requires p < |st.code| && q < |st.code[p].mi.ops|
    ensures Evolves(st, CheckShift(st, p, q, tag, g))
  {
    ReplaceEvolves(st);
  }

  lemma ProcessInstEvolves(cfg: Config, st: State, p: nat, q: nat, g: GlobalValue)
    requires p < |st.code| && q < |st.code[p].mi.ops|
    ensures Evolves(st, ProcessInst(cfg, st, p, q, g))
  {
    var op := st.code[p].mi.opcode;
    if IsLoadInst(cfg, op) {
      assert ProcessInst(cfg, st, p, q, g) == st.(skip := st.skip + {st.code[p].id});
    } else if op == Alu(ADD_rr) {
      CheckADDrrEvolves(cfg, st, p, q, g);
    } else if op == Alu(SLL_rr) {
      CheckShiftEvolves(st, p, q, SLL_ri, g);
    } else if op == Alu(SRA_rr) {
      CheckShiftEvolves(st, p, q, SRA_ri, g);
    } else if op == Alu(SRL_rr) {
      CheckShiftEvolves(st, p, q, SRL_ri, g);
    }
  }

  lemma ForwardUseEvolves(cfg: Config, st: State, s: Site, dst: nat, src: nat, g: GlobalValue,
                          doProp: bool, isAma: bool)
    ensures Evolves(st, ForwardUse(cfg, st, s, dst, src, g, doProp, isAma))
  {
    if IsUseSite(st.code, dst, s) {
      var o := st.code[s.pos].mi.ops[s.opnd];
      var code := if doProp then SetOperand(st.code, s.pos, s.opnd, Forwarded(o, src)) else st.code;
      var st1 := st.(code := code);
      assert Evolves(st, st1);
      if isAma && UniqueDef(code, if doProp then src else dst).Some? {
        ProcessInstEvolves(cfg, st1, s.pos, s.opnd, g);
        EvolvesTrans(st, st1, ProcessInst(cfg, st1, s.pos, s.opnd, g));
      }
    }
  }

  lemma {:induction false} ForwardFromEvolves(cfg: Config, st: State, sites: seq<Site>, n: nat, dst: nat, src: nat,
                                              g: GlobalValue, doProp: bool, isAma: bool)
    ensures Evolves(st, ForwardFrom(cfg, st, sites, n, dst, src, g, doProp, isAma))
    decreases |sites| - n
  {
    if n < |sites| {
      var mid := ForwardUse(cfg, st, sites[n], dst, src, g, doProp, isAma);
      ForwardUseEvolves(cfg, st, sites[n], dst, src, g, doProp, isAma);
      ForwardFromEvolves(cfg, mid, sites, n + 1, dst, src, g, doProp, isAma);
      EvolvesTrans(st, mid, ForwardFrom(cfg, st, sites, n, dst, src, g, doProp, isAma));
    }
  }

  lemma {:induction false} NarrowFromEvolves(cfg: Config, st: State, sites: seq<Site>, n: nat, dst: nat, g: GlobalValue)
    ensures Evolves(st, NarrowFrom(cfg, st, sites, n, dst, g))
    decreases |sites| - n
  {
    if n < |sites| {
      var s := sites[n];
      var mid := NarrowUser(cfg, st, s, dst, g);
      if IsUseSite(st.code, dst, s) && UniqueDef(st.code, dst).Some? {
        var mi := st.code[s.pos].mi;
        if mi.opcode == SUBREG_TO_REG && mi.ops[0].Reg? {
          ForwardFromEvolves(cfg, st, UseSites(st.code, mi.ops[0].reg), 0, mi.ops[0].reg, dst, g, false, true);
        }
      }
      NarrowFromEvolves(cfg, mid, sites, n + 1, dst, g);
      EvolvesTrans(st, mid, NarrowFrom(cfg, st, sites, n, dst, g));
    }
  }

  /** A node with a fresh identity inserted at `k`. */
  lemma InsertFresh(st: State, k: nat, mi: Instr)
    requires k <= |st.code|
    ensures var r := st.(code := st.code[..k] + [Node(st.next, mi)] + st.code[k..], next := st.next + 1);
            && |r.code| == |st.code| + 1 && r.code[k].id == st.next
            && (forall p :: 0 <= p < k ==> r.code[p] == st.code[p])
            && (forall p :: k < p < |r.code| ==> r.code[p] == st.code[p - 1])
            && (WellNumbered(st) ==> WellNumbered(r))
  {
  }

  /** The node at `i - 1` erased. */
  lemma EraseWellNumbered(st: State, i: nat)
    requires 0 < i <= |st.code|
    ensures var code := st.code[..i - 1] + st.code[i..];
            && |code| == |st.code| - 1
            && (forall p :: 0 <= p < i - 1 ==> code[p] == st.code[p])
            && (forall p :: i - 1 <= p < |code| ==> code[p] == st.code[p + 1])
            && (WellNumbered(st) ==> WellNumbered(st.(code := code)))
  {
  }

  /** Handling a candidate only grows the skip set and the counter, keeps
      identities apart, introduces no identity below the counter, and leaves
      the candidate's own identity nowhere but at the load's new position. */
  lemma ProcessCandidateIds(cfg: Config, narrow: set<nat>, st: State, k: nat, c: Cand)
    requires k < |st.code|
    ensures var (r, at) := ProcessCandidate(cfg, narrow, st, k, c);
            && st.skip <= r.skip && st.next <= r.next
            && (forall x: nat :: x < st.next && Absent(st.code, x) ==> Absent(r.code, x))
            && (WellNumbered(st) ==> WellNumbered(r))
            && (WellNumbered(st) ==> forall p :: 0 <= p < |r.code| && r.code[p].id == st.code[k].id ==> p == at)
  {
    if c.dst in narrow {
      var st1 := if c.isAma then NarrowFrom(cfg, st, UseSites(st.code, c.dst), 0, c.dst, c.gv) else st;
      if c.isAma {
        NarrowFromEvolves(cfg, st, UseSites(st.code, c.dst), 0, c.dst, c.gv);
      }
      InsertFresh(st1, k, NarrowCopy(c));
    } else {
      ForwardFromEvolves(cfg, st, UseSites(st.code, c.dst), 0, c.dst, c.src, c.gv, true, c.isAma);
    }
  }

  /** One step of the walk only grows the skip set and the counter and keeps
      identities apart. */
  lemma StepIds(cfg: Config, narrow: set<nat>, st: State, i: nat, pending: bool)
    requires i < |st.code| && (pending ==> 0 < i)
    ensures var r := Step(cfg, narrow, st, i, pending).0;
            && st.skip <= r.skip && st.next <= r.next
            && (WellNumbered(st) ==> WellNumbered(r))
  {
    var code := if pending then st.code[..i - 1] + st.code[i..] else st.code;
    var k := if pending then i - 1 else i;
    if pending {
      EraseWellNumbered(st, i);
    }
    match Candidate(cfg, code, k, st.skip)
    case None =>
    case Some(c) =>
      ProcessCandidateIds(cfg, narrow, st.(code := code), k, c);
  }

  /** The walk starts from distinct identities below the counter. */
  lemma NumberWellNumbered(f: seq<Instr>)
    ensures WellNumbered(State(Number(f), {}, |f|))
  {
  }

  /** A load set aside stays aside: after any later step of the walk it is
      still in the skip set, so wherever it sits it is no candidate. */
  lemma SetAsideForGood(cfg: Config, narrow: set<nat>, st: State, i: nat, pending: bool, x: nat)
    requires i < |st.code| && (pending ==> 0 < i) && x in st.skip
    ensures var r := Step(cfg, narrow, st, i, pending).0;
            && x in r.skip
            && forall k :: 0 <= k < |r.code| && r.code[k].id == x ==> Candidate(cfg, r.code, k, r.skip).None?
  {
    StepIds(cfg, narrow, st, i, pending);
  }

  /** A step whose only node of identity `x` is the pending one removes it
      for good. */
  lemma StepAbsent(cfg: Config, narrow: set<nat>, st: State, i: nat, pending: bool, x: nat)
    requires i < |st.code| && (pending ==> 0 < i) && x < st.next
    requires forall p :: 0 <= p < |st.code| && st.code[p].id == x ==> pending && p == i - 1
    ensures var r := Step(cfg, narrow, st, i, pending).0;
            Absent(r.code, x) && x < r.next
  {
    var code := if pending then st.code[..i - 1] + st.code[i..] else st.code;
    var k := if pending then i - 1 else i;
    if pending {
      EraseWellNumbered(st, i);
    }
    assert Absent(code, x);
    match Candidate(cfg, code, k, st.skip)
    case None =>
    case Some(c) =>
      ProcessCandidateIds(cfg, narrow, st.(code := code), k, c);
  }

  lemma {:induction false} ScanAbsent(cfg: Config, narrow: set<nat>, st: State, i: nat, pending: bool, changed: bool,
                                      x: nat)
    requires i <= |st.code| && (pending ==> 0 < i) && x < st.next && Absent(st.code, x)
    ensures Absent(ScanFrom(cfg, narrow, st, i, pending, changed).0, x)
    decreases |st.code| - i
  {
    if i < |st.code| {
      var (st1, j, hit) := Step(cfg, narrow, st, i, pending);
      StepAbsent(cfg, narrow, st, i, pending, x);
      ScanAbsent(cfg, narrow, st1, j, hit, changed || hit, x);
    }
  }

  /** The walk resumed after handling the candidate at `k` ends with no node
      of the candidate's identity, unless the load is then the last node. */
  lemma HandledThenGone(cfg: Config, narrow: set<nat>, st: State, k: nat, c: Cand, changed: bool)
    requires k < |st.code| && WellNumbered(st)
    ensures var (st1, at) := ProcessCandidate(cfg, narrow, st, k, c);
            at + 1 < |st1.code| ==> Absent(ScanFrom(cfg, narrow, st1, at + 1, true, changed).0, st.code[k].id)
  {
    var (st1, at) := ProcessCandidate(cfg, narrow, st, k, c);
    ProcessCandidateIds(cfg, narrow, st, k, c);
    if at + 1 < |st1.code| {
      var x := st.code[k].id;
      var (st2, j2, hit2) := Step(cfg, narrow, st1, at + 1, true);
      StepAbsent(cfg, narrow, st1, at + 1, true, x);
      ScanAbsent(cfg, narrow, st2, j2, hit2, changed || hit2, x);
    }
  }

  /** A processed candidate load is erased when the walk reaches the next
      instruction, and never comes back: unless the load was the last
      instruction, the rest of the walk ends with no node of its identity,
      whether it was forwarded, narrowed to a COPY or had users fused. */
  lemma ProcessedLoadErased(cfg: Config, narrow: set<nat>, st: State, i: nat, pending: bool, changed: bool)
    requires i < |st.code| && (pending ==> 0 < i) && WellNumbered(st)
    ensures var code := if pending then st.code[..i - 1] + st.code[i..] else st.code;
            var k := if pending then i - 1 else i;
            var (st1, j, hit) := Step(cfg, narrow, st, i, pending);
            && (hit <==> Candidate(cfg, code, k, st.skip).Some?)
            && (hit && j < |st1.code| ==> Absent(ScanFrom(cfg, narrow, st1, j, true, changed).0, code[k].id))
  {
    var code := if pending then st.code[..i - 1] + st.code[i..] else st.code;
    var k := if pending then i - 1 else i;
    if pending {
      EraseWellNumbered(st, i);
    }
    var st0 := st.(code := code);
    match Candidate(cfg, code, k, st.skip)
    case None =>
      assert Step(cfg, narrow, st, i, pending) == (st0, k + 1, false);
    case Some(c) =>
      StepHitGone(cfg, narrow, st, i, pending, changed, st0, k, c);
  }

  /** The Some case of ProcessedLoadErased, with the edited state named. */
  lemma StepHitGone(cfg: Config, narrow: set<nat>, st: State, i: nat, pending: bool, changed: bool,
                    st0: State, k: nat, c: Cand)
    requires i < |st.code| && (pending ==> 0 < i)
    requires k == (if pending then i - 1 else i)
    requires st0 == st.(code := if pending then st.code[..i - 1] + st.code[i..] else st.code)
    requires k < |st0.code| && WellNumbered(st0) && Candidate(cfg, st0.code, k, st.skip) == Some(c)
    ensures var (st1, j, hit) := Step(cfg, narrow, st, i, pending);
            && hit
            && (j < |st1.code| ==> Absent(ScanFrom(cfg, narrow, st1, j, true, changed).0, st0.code[k].id))
  {
    StepHit(cfg, narrow, st, i, pending, st0, k, c);
    HandledThenGone(cfg, narrow, st0, k, c, changed);
  }

  /** A Step that meets a candidate processes it and resumes just after it. */
  lemma StepHit(cfg: Config, narrow: set<nat>, st: State, i: nat, pending: bool, st0: State, k: nat, c: Cand)
    requires i < |st.code| && (pending ==> 0 < i)
    requires k == (if pending then i - 1 else i)
    requires st0 == st.(code := if pending then st.code[..i - 1] + st.code[i..] else st.code)
    requires k < |st0.code| && Candidate(cfg, st0.code, k, st.skip) == Some(c)
    ensures var pc := ProcessCandidate(cfg, narrow, st0, k, c);
            Step(cfg, narrow, st, i, pending) == (pc.0, pc.1 + 1, true)
  {
  }

  lemma {:induction false} ScanSkips(cfg: Config, narrow: set<nat>, st: State, i: nat, k: nat, changed: bool)
    requires i <= k <= |st.code|
    requires forall j :: i <= j < k ==> Candidate(cfg, st.code, j, st.skip).None?
    ensures ScanFrom(cfg, narrow, st, i, false, changed) == ScanFrom(cfg, narrow, st, k, false, changed)
    decreases k - i
  {
    if i < k {
      assert Step(cfg, narrow, st, i, false) == (st.(code := st.code), i + 1, false);
      ScanSkips(cfg, narrow, st.(code := st.code), i + 1, k, changed);
    }
  }

  /** A candidate that is the last instruction of the function is never
      erased: when it is the only candidate, no instruction is removed. */
  lemma LastCandidateKept(cfg: Config, narrow: set<nat>, f: seq<Instr>, c: Cand)
    requires 0 < |f|
    requires Candidate(cfg, Number(f), |f| - 1, {}) == Some(c)
    requires forall j :: 0 <= j < |f| - 1 ==> Candidate(cfg, Number(f), j, {}).None?
    ensures var (g, changed) := RemoveLD(cfg, narrow, f);
            changed && |g| == |f| + (if c.dst in narrow then 1 else 0)
  {
    var st := State(Number(f), {}, |f|);
    ScanSkips(cfg, narrow, st, 0, |f| - 1, false);
    var (st2, at) := ProcessCandidate(cfg, narrow, st, |f| - 1, c);
    assert Step(cfg, narrow, st, |f| - 1, false) == (st2, at + 1, true);
  }
}
