/**
 Post-register-allocation legalisation of the SBF backend: register copies,
 spill and reload of a register to a stack slot, and the expansion of the
 MEMCPY pseudo instruction into load/store pairs.
 */
module PseudoExpand {
  import opened Machine

  /** Register classes; only GPR and GPR32 are supported by these hooks. */
  datatype RegClass = GPR | GPR32 | OtherClass(id: nat)

  /** A physical register and the class it belongs to. */
  datatype PhysReg = PhysReg(num: nat, cls: RegClass)

  /** Width in bits of the registers of a supported class, 0 otherwise. */
  function ClassBits(c: RegClass): nat
  {
    match c
    case GPR => 64
    case GPR32 => 32
    case OtherClass(_) => 0
  }

  /** Width in bits a register move opcode copies, 0 for other opcodes. */
  function MoveBits(op: Opcode): nat
  {
    match op
    case Alu(MOV_rr) => 64
    case Alu(MOV_rr_32_no_sext_v1) => 32
    case Alu(MOV_rr_32_no_sext_v2) => 32
    case _ => 0
  }

  /** `mi` inserted before position `at` of a block (`at == |b|` appends). */
  function InsertAt(b: Block, at: nat, mi: Instr): (r: Block)
    requires at <= |b|
    ensures |r| == |b| + 1 && r[at] == mi
    ensures r[..at] == b[..at] && r[at + 1..] == b[at..]
  {
    b[..at] + [mi] + b[at..]
  }

  // ---------------------------------------------------------------------------
  // copyPhysReg

  /** One register-to-register move inserted before `at`; copying between
      different or unsupported register classes is fatal. */
  function CopyPhysReg(cfg: Config, b: Block, at: nat, dst: PhysReg, src: PhysReg, killSrc: bool): (r: Result<Block>)
    requires at <= |b|
    ensures r.Ok? <==> dst.cls == src.cls && ClassBits(dst.cls) > 0
    ensures r.Ok? ==> |r.value| == |b| + 1 && r.value[..at] == b[..at] && r.value[at + 1..] == b[at..]
    ensures r.Ok? ==> MoveBits(r.value[at].opcode) == ClassBits(dst.cls)
    ensures r.Ok? ==> r.value[at].ops == [DefReg(dst.num), UseReg(src.num, killSrc)]
    ensures r.Ok? && dst.cls == GPR32 ==>
              (r.value[at].opcode == Alu(MOV_rr_32_no_sext_v2) <==> cfg.hasExplicitSignExt)
  {
    if dst.cls == GPR && src.cls == GPR then
      Ok(InsertAt(b, at, Instr(Alu(MOV_rr), [DefReg(dst.num), UseReg(src.num, killSrc)])))
    else if dst.cls == GPR32 && src.cls == GPR32 then
      var op := if cfg.hasExplicitSignExt then Alu(MOV_rr_32_no_sext_v2) else Alu(MOV_rr_32_no_sext_v1);
      Ok(InsertAt(b, at, Instr(op, [DefReg(dst.num), UseReg(src.num, killSrc)])))
    else
      Fatal("Impossible reg-to-reg copy")
  }

  // ---------------------------------------------------------------------------
  // storeRegToStackSlot / loadRegFromStackSlot

  /** Spill: one store of the register to frame slot `fi` at offset 0. */
  function StoreRegToStackSlot(cfg: Config, b: Block, at: nat, src: nat, isKill: bool, fi: int, rc: RegClass): (r: Result<Block>)
    requires at <= |b|
    ensures r.Ok? <==> ClassBits(rc) > 0
    ensures r.Ok? ==> |r.value| == |b| + 1 && r.value[..at] == b[..at] && r.value[at + 1..] == b[at..]
    ensures r.Ok? ==> MemShape(r.value[at].opcode) == Some(MemForm(StoreReg, ClassBits(rc) / 8, rc == GPR32, MemEnc(cfg)))
    ensures r.Ok? ==> r.value[at].ops == [UseReg(src, isKill), FrameIdx(fi), Imm(0)]
  {
    var e := MemEnc(cfg);
    if rc == GPR then
      Ok(InsertAt(b, at, Instr(Mem(STD(e)), [UseReg(src, isKill), FrameIdx(fi), Imm(0)])))
    else if rc == GPR32 then
      Ok(InsertAt(b, at, Instr(Mem(STW32(e)), [UseReg(src, isKill), FrameIdx(fi), Imm(0)])))
    else
      Fatal("Can't store this register to stack slot")
  }

  /** Reload: one load of the register from frame slot `fi` at offset 0. */
  function LoadRegFromStackSlot(cfg: Config, b: Block, at: nat, dst: nat, fi: int, rc: RegClass): (r: Result<Block>)
    requires at <= |b|
    ensures r.Ok? <==> ClassBits(rc) > 0
    ensures r.Ok? ==> |r.value| == |b| + 1 && r.value[..at] == b[..at] && r.value[at + 1..] == b[at..]
    ensures r.Ok? ==> MemShape(r.value[at].opcode) == Some(MemForm(Load, ClassBits(rc) / 8, rc == GPR32, MemEnc(cfg)))
    ensures r.Ok? ==> r.value[at].ops == [DefReg(dst), FrameIdx(fi), Imm(0)]
  {
    var e := MemEnc(cfg);
    if rc == GPR then
      Ok(InsertAt(b, at, Instr(Mem(LDD(e)), [DefReg(dst), FrameIdx(fi), Imm(0)])))
    else if rc == GPR32 then
      Ok(InsertAt(b, at, Instr(Mem(LDW32(e)), [DefReg(dst), FrameIdx(fi), Imm(0)])))
    else
      Fatal("Can't load this register from stack slot")
  }

  /** A reload undoes a spill: both succeed for the same classes, and the
      reload reads the slot, offset, width and encoding the spill wrote. */
  lemma SpillReloadAgree(cfg: Config, b: Block, at: nat, reg: nat, isKill: bool, fi: int, rc: RegClass)
    requires at <= |b|
    ensures StoreRegToStackSlot(cfg, b, at, reg, isKill, fi, rc).Ok? <==> LoadRegFromStackSlot(cfg, b, at, reg, fi, rc).Ok?
    ensures StoreRegToStackSlot(cfg, b, at, reg, isKill, fi, rc).Ok? ==>
              var st := StoreRegToStackSlot(cfg, b, at, reg, isKill, fi, rc).value[at];
              var ld := LoadRegFromStackSlot(cfg, b, at, reg, fi, rc).value[at];
              && MemShape(st.opcode).value.bytes == MemShape(ld.opcode).value.bytes
              && MemShape(st.opcode).value.enc == MemShape(ld.opcode).value.enc
              && st.ops[1..] == ld.ops[1..]
              && st.ops[0].reg == ld.ops[0].reg
  {
  }

  // ---------------------------------------------------------------------------
  // expandMEMCPY

  /** Bytes per access chosen for a MEMCPY alignment: min(alignment, 8); None
      for an alignment outside {1, 2, 4, 8, 16}. */
  function AccessWidth(align: int): (w: Option<nat>)
    ensures w.Some? <==> align in {1, 2, 4, 8, 16}
    ensures w.Some? ==> w.value in {1, 2, 4, 8} && w.value == if align < 8 then align else 8
  {
    if align == 1 || align == 2 || align == 4 || align == 8 then Some(align)
    else if align == 16 then Some(8)
    else None
  }

  /** The B/H/W/D load of a width, in an encoding. */
  function LoadOp(bytes: nat, e: Enc): (op: Opcode)
    requires bytes in {1, 2, 4, 8}
    ensures MemShape(op) == Some(MemForm(Load, bytes, false, e))
  {
    if bytes == 1 then Mem(LDB(e)) else if bytes == 2 then Mem(LDH(e)) else if bytes == 4 then Mem(LDW(e)) else Mem(LDD(e))
  }

  /** The B/H/W/D register store of a width, in an encoding. */
  function StoreOp(bytes: nat, e: Enc): (op: Opcode)
    requires bytes in {1, 2, 4, 8}
    ensures MemShape(op) == Some(MemForm(StoreReg, bytes, false, e))
  {
    if bytes == 1 then Mem(STB(e)) else if bytes == 2 then Mem(STH(e)) else if bytes == 4 then Mem(STW(e)) else Mem(STD(e))
  }

  /** Width of the single access that covers the bytes left after the
      equal-width pairs: the smallest of 1, 2, 4, 8 that is at least `left`. */
  function RemainderWidth(left: nat): (tw: nat)
    requires 0 < left <= 8
    ensures tw in {1, 2, 4, 8} && left <= tw && tw < 2 * left
  {
    if left < 2 then 1
    else if left <= 2 then 2
    else if left <= 4 then 4
    else 8
  }

  /** 2^32: offsets of the remainder pair are computed in 32-bit `unsigned`. */
  const U32: nat := 0x1_0000_0000

  /** One load/store pair of the expansion: its byte offset (as emitted) and width. */
  datatype Pair = Pair(offset: int, bytes: nat)

  /** The first `n` equal-width pairs, at offsets `i * w`. */
  function EvenPairs(n: nat, w: nat): (ps: seq<Pair>)
    ensures |ps| == n
    ensures forall i :: 0 <= i < n ==> ps[i] == Pair(i * w, w)
  {
    seq(n, i => Pair(i * w, w))
  }

  /** The pairs MEMCPY of `len` bytes expands to at access width `w`:
      `len / w` pairs at offsets `i * w`, then, when bytes are left, one pair
      that ends at `len`, its offset wrapped to 32 bits. */
  function MemcpyPlan(len: nat, w: nat): seq<Pair>
    requires w in {1, 2, 4, 8}
  {
    var left := len % w;
    EvenPairs(len / w, w)
    + (if left == 0 then [] else [Pair((len - RemainderWidth(left)) % U32, RemainderWidth(left))])
  }

  /** Number of load/store pairs the expansion emits. */
  function PairCount(len: nat, w: nat): nat
    requires w > 0
  {
    len / w + (if len % w == 0 then 0 else 1)
  }

  /** Pair `j` of the plan, read off without the sequence algebra. */
  lemma PlanShape(len: nat, w: nat)
    requires w in {1, 2, 4, 8}
    ensures |MemcpyPlan(len, w)| == PairCount(len, w)
    ensures forall j :: 0 <= j < len / w ==> MemcpyPlan(len, w)[j] == Pair(j * w, w)
    ensures len % w != 0 ==>
              MemcpyPlan(len, w)[len / w] == Pair((len - RemainderWidth(len % w)) % U32, RemainderWidth(len % w))
    ensures forall j :: 0 <= j < |MemcpyPlan(len, w)| ==> MemcpyPlan(len, w)[j].bytes in {1, 2, 4, 8}
  {
  }

  predicate Widths(ps: seq<Pair>)
  {
    forall j :: 0 <= j < |ps| ==> ps[j].bytes in {1, 2, 4, 8}
  }

  /** The load into the scratch register of one pair. */
  function PairLoad(p: Pair, e: Enc, src: nat, scratch: nat): Instr
    requires p.bytes in {1, 2, 4, 8}
  {
    Instr(LoadOp(p.bytes, e), [DefReg(scratch), UseReg(src, false), Imm(p.offset)])
  }

  /** The store of the scratch register of one pair. */
  function PairStore(p: Pair, e: Enc, dst: nat, scratch: nat): Instr
    requires p.bytes in {1, 2, 4, 8}
  {
    Instr(StoreOp(p.bytes, e), [UseReg(scratch, true), UseReg(dst, false), Imm(p.offset)])
  }

  /** Each pair as its load immediately followed by its store, in plan order. */
  function Lower(ps: seq<Pair>, e: Enc, src: nat, dst: nat, scratch: nat): (out: seq<Instr>)
    requires Widths(ps)
    ensures |out| == 2 * |ps|
  {
    if ps == [] then []
    else Lower(ps[..|ps| - 1], e, src, dst, scratch)
         + [PairLoad(ps[|ps| - 1], e, src, scratch), PairStore(ps[|ps| - 1], e, dst, scratch)]
  }

  /** Instruction `2j` of a lowering is the load of pair `j`, instruction
      `2j + 1` its store. */
  lemma {:induction false} LowerAt(ps: seq<Pair>, e: Enc, src: nat, dst: nat, scratch: nat, j: nat)
    requires Widths(ps)
    requires j < |ps|
    ensures Lower(ps, e, src, dst, scratch)[2 * j] == PairLoad(ps[j], e, src, scratch)
    ensures Lower(ps, e, src, dst, scratch)[2 * j + 1] == PairStore(ps[j], e, dst, scratch)
  {
    var init := ps[..|ps| - 1];
    if j < |ps| - 1 {
      LowerAt(init, e, src, dst, scratch, j);
    }
  }

  /** One more equal-width pair appends its load and store. */
  lemma LowerEvenStep(i: nat, w: nat, e: Enc, src: nat, dst: nat, scratch: nat)
    requires w in {1, 2, 4, 8}
    ensures Widths(EvenPairs(i, w)) && Widths(EvenPairs(i + 1, w))
    ensures Lower(EvenPairs(i + 1, w), e, src, dst, scratch)
            == Lower(EvenPairs(i, w), e, src, dst, scratch)
               + [Instr(LoadOp(w, e), [DefReg(scratch), UseReg(src, false), Imm(i * w)]),
                  Instr(StoreOp(w, e), [UseReg(scratch, true), UseReg(dst, false), Imm(i * w)])]
  {
    assert EvenPairs(i + 1, w)[..i] == EvenPairs(i, w);
  }

  /** The lowering of the plan: the equal-width pairs, then the remainder
      pair's load and store when bytes are left. */
  lemma LowerPlan(len: nat, w: nat, e: Enc, src: nat, dst: nat, scratch: nat)
    requires w in {1, 2, 4, 8}
    ensures Widths(EvenPairs(len / w, w)) && Widths(MemcpyPlan(len, w))
    ensures len % w == 0 ==> Lower(MemcpyPlan(len, w), e, src, dst, scratch) == Lower(EvenPairs(len / w, w), e, src, dst, scratch)
    ensures len % w != 0 ==>
              var tw := RemainderWidth(len % w);
              var offset := (len - tw) % U32;
              Lower(MemcpyPlan(len, w), e, src, dst, scratch)
              == Lower(EvenPairs(len / w, w), e, src, dst, scratch)
                 + [Instr(LoadOp(tw, e), [DefReg(scratch), UseReg(src, false), Imm(offset)]),
                    Instr(StoreOp(tw, e), [UseReg(scratch, true), UseReg(dst, false), Imm(offset)])]
  {
    var plan := MemcpyPlan(len, w);
    if len % w == 0 {
      assert plan == EvenPairs(len / w, w);
    } else {
      assert plan[..|plan| - 1] == EvenPairs(len / w, w);
    }
  }

  /** The instructions that replace `MEMCPY dst, src, len, align, scratch`:
      the lowering of the plan. An unsupported alignment is fatal. The length
      is a 32-bit quantity here. */
  method ExpandMemcpy(cfg: Config, dst: nat, src: nat, len: nat, align: int, scratch: nat) returns (r: Result<seq<Instr>>)
    requires len < U32
    ensures r.Fatal? <==> AccessWidth(align).None?
    ensures r.Ok? ==>
              && Widths(MemcpyPlan(len, AccessWidth(align).value))
              && r.value == Lower(MemcpyPlan(len, AccessWidth(align).value), MemEnc(cfg), src, dst, scratch)
  {
    var width := AccessWidth(align);
    if width.None? {
      return Fatal("unsupported memcpy alignment");
    }
    var w := width.value;
    var e := MemEnc(cfg);
    var iterations := len / w;
    var out: seq<Instr> := [];
    var i := 0;
    while i < iterations
      invariant 0 <= i <= iterations
      invariant out == Lower(EvenPairs(i, w), e, src, dst, scratch)
    {
      out := out + [Instr(LoadOp(w, e), [DefReg(scratch), UseReg(src, false), Imm(i * w)]),
                    Instr(StoreOp(w, e), [UseReg(scratch, true), UseReg(dst, false), Imm(i * w)])];
      LowerEvenStep(i, w, e, src, dst, scratch);
      i := i + 1;
    }
    var left := len - iterations * w;
    DivMod(len, w);
    assert left == len % w;
    LowerPlan(len, w, e, src, dst, scratch);
    if left == 0 {
      return Ok(out);
    }
    var tw := RemainderWidth(left);
    var offset := (len - tw) % U32;
    out := out + [Instr(LoadOp(tw, e), [DefReg(scratch), UseReg(src, false), Imm(offset)]),
                  Instr(StoreOp(tw, e), [UseReg(scratch, true), UseReg(dst, false), Imm(offset)])];
    return Ok(out);
  }

  /** The remainder access never needs more than the access width, so the
      source's "more than 8 bytes left" failure cannot happen. */
  lemma RemainderFitsWidth(len: nat, w: nat)
    requires w in {1, 2, 4, 8}
    requires len % w != 0
    ensures RemainderWidth(len % w) <= w
  {
  }

  /** Byte `b` lies inside the access of some pair of the plan. */
  predicate Covered(plan: seq<Pair>, b: int)
  {
    exists j :: 0 <= j < |plan| && plan[j].offset <= b < plan[j].offset + plan[j].bytes
  }

  /** No pair reaches outside [0, len) when the copy is at least one access wide. */
  lemma MemcpyInBounds(len: nat, w: nat)
    requires w in {1, 2, 4, 8}
    requires len < U32
    requires w <= len
    ensures forall j :: 0 <= j < |MemcpyPlan(len, w)| ==>
              0 <= MemcpyPlan(len, w)[j].offset && MemcpyPlan(len, w)[j].offset + MemcpyPlan(len, w)[j].bytes <= len
  {
    var plan := MemcpyPlan(len, w);
    var n := len / w;
    DivMod(len, w);
    PlanShape(len, w);
    forall j | 0 <= j < |plan|
      ensures 0 <= plan[j].offset && plan[j].offset + plan[j].bytes <= len
    {
      if j < n {
        MulMono(j + 1, n, w);
      } else {
        RemainderFitsWidth(len, w);
      }
    }
  }

  /** Every byte of [0, len) is read and written by some pair when the copy is
      at least one access wide. */
  lemma MemcpyCovers(len: nat, w: nat)
    requires w in {1, 2, 4, 8}
    requires len < U32
    requires w <= len
    ensures forall b :: 0 <= b < len ==> Covered(MemcpyPlan(len, w), b)
  {
    var plan := MemcpyPlan(len, w);
    var n := len / w;
    var left := len % w;
    DivMod(len, w);
    PlanShape(len, w);
    forall b | 0 <= b < len
      ensures Covered(plan, b)
    {
      if b < n * w {
        var j := b / w;
        DivBelow(b, n, w);
        assert plan[j] == Pair(j * w, w);
      } else {
        RemainderFitsWidth(len, w);
        assert plan[n] == Pair(len - RemainderWidth(left), RemainderWidth(left));
      }
    }
  }

  lemma MulMono(a: nat, b: nat, w: nat)
    requires w in {1, 2, 4, 8}
    requires a <= b
    ensures a * w <= b * w
  {
    if w == 1 {
    } else if w == 2 {
    } else if w == 4 {
    } else {
    }
  }

  lemma DivMod(x: nat, w: nat)
    requires w in {1, 2, 4, 8}
    ensures x == (x / w) * w + x % w && 0 <= x % w < w
  {
  }

  lemma DivBelow(b: nat, n: nat, w: nat)
    requires w in {1, 2, 4, 8}
    requires b < n * w
    ensures b / w < n
    ensures (b / w) * w <= b < (b / w) * w + w
  {
    DivMod(b, w);
    if b / w >= n {
      MulMono(n, b / w, w);
    }
  }

  /** The remainder offset wraps to a 32-bit value beyond the copy exactly when
      the copy is shorter than one access and its length is not itself an
      access width: lengths 3, 5, 6 and 7. */
  lemma MemcpyOutOfRange(len: nat, w: nat)
    requires w in {1, 2, 4, 8}
    requires len < U32
    ensures (exists j :: 0 <= j < |MemcpyPlan(len, w)| && MemcpyPlan(len, w)[j].offset + MemcpyPlan(len, w)[j].bytes > len)
            <==> len < w && len in {3, 5, 6, 7}
  {
    var plan := MemcpyPlan(len, w);
    if len < w && len in {3, 5, 6, 7} {
      assert len / w == 0 && len % w == len;
      assert plan[0].offset + plan[0].bytes > len;
    } else if w <= len {
      MemcpyInBounds(len, w);
    } else {
      assert len / w == 0 && len % w == len;
      assert len == 0 || plan[0] == Pair(0, len);
    }
  }

  /** 13 bytes at alignment 4: words at 0, 4 and 8, then a byte at 12. */
  lemma MemcpyThirteenAlignFour()
    ensures MemcpyPlan(13, AccessWidth(4).value) == [Pair(0, 4), Pair(4, 4), Pair(8, 4), Pair(12, 1)]
  {
    assert 13 / 4 == 3 && 13 % 4 == 1;
  }

  /** 3 bytes at alignment 4: one word pair whose offset 3 - 4 wraps to 2^32 - 1. */
  lemma MemcpyThreeAlignFour()
    ensures MemcpyPlan(3, AccessWidth(4).value) == [Pair(0xFFFF_FFFF, 4)]
  {
    assert 3 / 4 == 0 && 3 % 4 == 3;
  }

  /** A zero-length copy emits nothing. */
  lemma MemcpyEmpty(w: nat)
    requires w in {1, 2, 4, 8}
    ensures MemcpyPlan(0, w) == []
  {
  }

  // ---------------------------------------------------------------------------
  // expandPostRAPseudo

  /** The operands of a MEMCPY pseudo: destination, source, length, alignment, scratch. */
  datatype MemcpyArgs = MemcpyArgs(dst: nat, src: nat, len: int, align: int, scratch: nat)

  function DecodeMemcpy(mi: Instr): Option<MemcpyArgs>
  {
    if |mi.ops| >= 5 && mi.ops[0].Reg? && mi.ops[1].Reg? && mi.ops[2].Imm? && mi.ops[3].Imm? && mi.ops[4].Reg? then
      Some(MemcpyArgs(mi.ops[0].reg, mi.ops[1].reg, mi.ops[2].value, mi.ops[3].value, mi.ops[4].reg))
    else None
  }

  /** The modelled range of MEMCPY lengths: 32-bit unsigned. */
  predicate LengthInRange(mi: Instr)
  {
    DecodeMemcpy(mi).Some? ==> 0 <= DecodeMemcpy(mi).value.len < U32
  }

  /** Expands the instruction at `pos` if it is MEMCPY (the pseudo is erased and
      its pairs take its place; result true); any other instruction is left
      alone (result false). */
  method ExpandPostRAPseudo(cfg: Config, b: Block, pos: nat) returns (r: Result<(Block, bool)>)
    requires pos < |b|
    requires LengthInRange(b[pos])
    ensures b[pos].opcode != MEMCPY ==> r == Ok((b, false))
    ensures b[pos].opcode == MEMCPY ==>
              (r.Fatal? <==> DecodeMemcpy(b[pos]).None? || AccessWidth(DecodeMemcpy(b[pos]).value.align).None?)
    ensures b[pos].opcode == MEMCPY && r.Ok? ==>
              var a := DecodeMemcpy(b[pos]).value;
              var n := 2 * PairCount(a.len, AccessWidth(a.align).value);
              && r.value.1
              && |r.value.0| == |b| - 1 + n
              && r.value.0[..pos] == b[..pos]
              && r.value.0[pos + n..] == b[pos + 1..]
              && Widths(MemcpyPlan(a.len, AccessWidth(a.align).value))
              && r.value.0[pos..pos + n] == Lower(MemcpyPlan(a.len, AccessWidth(a.align).value), MemEnc(cfg), a.src, a.dst, a.scratch)
              && forall k :: pos <= k < pos + n ==> r.value.0[k].opcode != MEMCPY
  {
    if b[pos].opcode != MEMCPY {
      return Ok((b, false));
    }
    var args := DecodeMemcpy(b[pos]);
    if args.None? {
      return Fatal("malformed MEMCPY");
    }
    var a := args.value;
    var exp := ExpandMemcpy(cfg, a.dst, a.src, a.len, a.align, a.scratch);
    if exp.Fatal? {
      return Fatal(exp.reason);
    }
    var w := AccessWidth(a.align).value;
    var plan := MemcpyPlan(a.len, w);
    PlanShape(a.len, w);
    assert forall k :: 0 <= k < |exp.value| ==> exp.value[k].opcode != MEMCPY by {
      forall k | 0 <= k < |exp.value|
        ensures exp.value[k].opcode != MEMCPY
      {
        var j := k / 2;
        assert j < |plan|;
        LowerAt(plan, MemEnc(cfg), a.src, a.dst, a.scratch, j);
        if k == 2 * j {
          assert MemShape(exp.value[k].opcode).Some?;
        } else {
          assert k == 2 * j + 1;
          assert MemShape(exp.value[k].opcode).Some?;
        }
      }
    }
    var nb := b[..pos] + exp.value + b[pos + 1..];
    assert nb[pos + |exp.value|..] == b[pos + 1..];
    assert nb[pos..pos + |exp.value|] == exp.value;
    return Ok((nb, true));
  }
}
