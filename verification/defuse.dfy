/**
 Def-use information of a machine function, computed from its instruction
 list: which instructions define a virtual register, whether exactly one does
 (getUniqueVRegDef), and where it is used. Instructions carry an identity so
 that a set of instructions can be remembered across edits.
 */
module DefUse {
  import opened Machine

  /** An instruction with its identity; a replacement gets a new identity. */
  datatype Node = Node(id: nat, mi: Instr)

  /** A machine function's instructions, its blocks laid end to end. */
  type Code = seq<Node>

  predicate IsDefOf(o: Operand, r: nat)
  {
    o.Reg? && o.isDef && o.reg == r
  }

  predicate IsUseOf(o: Operand, r: nat)
  {
    o.Reg? && !o.isDef && o.reg == r
  }

  /** `mi` has a definition operand of `r`. */
  predicate Defines(mi: Instr, r: nat)
  {
    exists q :: 0 <= q < |mi.ops| && IsDefOf(mi.ops[q], r)
  }

  // ---------------------------------------------------------------------------
  // Definitions

  /** Positions from `from` on whose instruction defines `r`, in order. */
  function DefsFrom(code: Code, r: nat, from: nat): seq<nat>
    decreases |code| - from
  {
    if from >= |code| then []
    else (if Defines(code[from].mi, r) then [from] else []) + DefsFrom(code, r, from + 1)
  }

  lemma {:induction false} DefsFromSpec(code: Code, r: nat, from: nat)
    ensures forall x :: x in DefsFrom(code, r, from) <==> from <= x < |code| && Defines(code[x].mi, r)
    ensures var ds := DefsFrom(code, r, from);
            |ds| >= 2 ==> ds[0] < ds[1]
    decreases |code| - from
  {
    if from < |code| {
      DefsFromSpec(code, r, from + 1);
      var rest := DefsFrom(code, r, from + 1);
      if |rest| > 0 {
        assert rest[0] in rest;
      }
    }
  }

  /** The position of the only instruction that defines `r`, if exactly one
      does (getUniqueVRegDef). */
  function UniqueDef(code: Code, r: nat): (d: Option<nat>)
    ensures d.Some? ==> d.value < |code| && Defines(code[d.value].mi, r)
  {
    var ds := DefsFrom(code, r, 0);
    DefsFromSpec(code, r, 0);
    if |ds| == 1 then assert ds[0] in ds; Some(ds[0]) else None
  }

  lemma {:induction false} DefsFromFrame(code: Code, code': Code, r: nat, from: nat)
    requires |code'| == |code|
    requires forall p :: 0 <= p < |code| ==> (Defines(code'[p].mi, r) <==> Defines(code[p].mi, r))
    ensures DefsFrom(code', r, from) == DefsFrom(code, r, from)
    decreases |code| - from
  {
    if from < |code| {
      DefsFromFrame(code, code', r, from + 1);
    }
  }

  /** Edits that leave every instruction's defining of `r` as it was leave
      the unique definition of `r` where it was. */
  lemma UniqueDefFrame(code: Code, code': Code, r: nat)
    requires |code'| == |code|
    requires forall p :: 0 <= p < |code| ==> (Defines(code'[p].mi, r) <==> Defines(code[p].mi, r))
    ensures UniqueDef(code', r) == UniqueDef(code, r)
  {
    DefsFromFrame(code, code', r, 0);
  }

  /** The instruction at `p` defines `r` and no other instruction does. */
  predicate OnlyDef(code: Code, r: nat, p: nat)
  {
    && p < |code| && Defines(code[p].mi, r)
    && forall p' :: 0 <= p' < |code| && p' != p ==> !Defines(code[p'].mi, r)
  }

  /** UniqueDef finds the defining instruction exactly when it is the only
      one; otherwise no instruction or at least two define the register. */
  lemma UniqueDefSpec(code: Code, r: nat)
    ensures UniqueDef(code, r).Some? ==> OnlyDef(code, r, UniqueDef(code, r).value)
    ensures forall p: nat :: OnlyDef(code, r, p) ==> UniqueDef(code, r) == Some(p)
    ensures UniqueDef(code, r).None? ==>
              (forall p :: 0 <= p < |code| ==> !Defines(code[p].mi, r)) ||
              (exists p1, p2 :: 0 <= p1 < p2 < |code| && Defines(code[p1].mi, r) && Defines(code[p2].mi, r))
  {
    var ds := DefsFrom(code, r, 0);
    DefsFromSpec(code, r, 0);
    if |ds| >= 1 {
      assert ds[0] in ds;
    }
    if |ds| >= 2 {
      assert ds[1] in ds;
    }
  }

  // ---------------------------------------------------------------------------
  // Uses

  /** A use operand: operand `opnd` of the instruction at position `pos`. */
  datatype Site = Site(pos: nat, opnd: nat)

  /** Operand `s.opnd` of the instruction at `s.pos` reads `r`. */
  predicate IsUseSite(code: Code, r: nat, s: Site)
  {
    s.pos < |code| && s.opnd < |code[s.pos].mi.ops| && IsUseOf(code[s.pos].mi.ops[s.opnd], r)
  }

  /** The uses of `r` in the instruction at `p`, from operand `q` on. */
  function UsesIn(code: Code, r: nat, p: nat, q: nat): seq<Site>
    requires p < |code|
    decreases |code[p].mi.ops| - q
  {
    if q >= |code[p].mi.ops| then []
    else (if IsUseOf(code[p].mi.ops[q], r) then [Site(p, q)] else []) + UsesIn(code, r, p, q + 1)
  }

  /** The uses of `r` from position `p` on, in program order. */
  function UsesFrom(code: Code, r: nat, p: nat): seq<Site>
    decreases |code| - p
  {
    if p >= |code| then [] else UsesIn(code, r, p, 0) + UsesFrom(code, r, p + 1)
  }

  /** The use list of `r`, a snapshot in program order. */
  function UseSites(code: Code, r: nat): seq<Site>
  {
    UsesFrom(code, r, 0)
  }

  lemma {:induction false} UsesInSpec(code: Code, r: nat, p: nat, q: nat)
    requires p < |code|
    ensures forall s :: s in UsesIn(code, r, p, q) <==> s.pos == p && q <= s.opnd && IsUseSite(code, r, s)
    decreases |code[p].mi.ops| - q
  {
    if q < |code[p].mi.ops| {
      UsesInSpec(code, r, p, q + 1);
    }
  }

  lemma {:induction false} UsesFromSpec(code: Code, r: nat, p: nat)
    ensures forall s :: s in UsesFrom(code, r, p) <==> p <= s.pos && IsUseSite(code, r, s)
    decreases |code| - p
  {
    if p < |code| {
      UsesInSpec(code, r, p, 0);
      UsesFromSpec(code, r, p + 1);
    }
  }

  /** The use list holds exactly the use operands of `r`. */
  lemma UseSitesSpec(code: Code, r: nat)
    ensures forall s :: s in UseSites(code, r) <==> IsUseSite(code, r, s)
  {
    UsesFromSpec(code, r, 0);
  }

  // ---------------------------------------------------------------------------
  // Edits

  /** Operand `q` of the instruction at `p` replaced in place. */
  function SetOperand(code: Code, p: nat, q: nat, o: Operand): (r: Code)
    requires p < |code| && q < |code[p].mi.ops|
    ensures |r| == |code| && forall p' :: 0 <= p' < |code| ==> r[p'].id == code[p'].id
  {
    code[p := Node(code[p].id, code[p].mi.(ops := code[p].mi.ops[q := o]))]
  }
}
