/**
 Terminator analysis and editing of a basic block (analyzeBranch, insertBranch,
 removeBranch). The only branch the backend edits is the unconditional JMP; a
 block's terminators are the run of JMP and debug instructions at its end.
 */
module Branch {
  import opened Machine

  /** The block operand 0 of a jump names, if it names one. */
  function JumpTarget(mi: Instr): Option<nat>
  {
    if |mi.ops| > 0 && mi.ops[0].MBB? then Some(mi.ops[0].block) else None
  }

  /** A jump to the block laid out right after the current one. */
  predicate ToLayoutSuccessor(mi: Instr, succ: Option<nat>)
  {
    succ.Some? && JumpTarget(mi) == succ
  }

  /** Members of the trailing run: JMP and debug instructions. */
  predicate InRun(mi: Instr)
  {
    mi.opcode == JMP || IsDebug(mi.opcode)
  }

  // ---------------------------------------------------------------------------
  // The trailing run and its topmost JMP

  /** `s` is where the run of JMP and debug instructions ending just before
      position `i` starts. */
  predicate IsRunStart(b: Block, i: nat, s: nat)
    requires i <= |b|
  {
    && s <= i
    && (forall k :: s <= k < i ==> InRun(b[k]))
    && (s > 0 ==> !InRun(b[s - 1]))
  }

  /** Start of the run of JMP and debug instructions ending just before `i`. */
  function RunStartAt(b: Block, i: nat): (s: nat)
    requires i <= |b|
    ensures s <= i
  {
    if i == 0 || !InRun(b[i - 1]) then i else RunStartAt(b, i - 1)
  }

  /** Start of the run of JMP and debug instructions that ends the block. */
  function RunStart(b: Block): nat
  {
    RunStartAt(b, |b|)
  }

  lemma {:induction false} RunStartIs(b: Block, i: nat)
    requires i <= |b|
    ensures IsRunStart(b, i, RunStartAt(b, i))
  {
    if i > 0 && InRun(b[i - 1]) {
      RunStartIs(b, i - 1);
    }
  }

  lemma RunStartUnique(b: Block, i: nat, s: nat)
    requires i <= |b| && IsRunStart(b, i, s)
    ensures RunStartAt(b, i) == s
  {
    RunStartIs(b, i);
  }

  /** `j` is the first JMP in positions `from` up to `to`. */
  predicate IsFirstJump(b: Block, from: nat, to: nat, j: Option<nat>)
    requires to <= |b|
  {
    && (j.Some? ==> from <= j.value < to && b[j.value].opcode == JMP)
    && (j.Some? ==> forall k :: from <= k < j.value ==> b[k].opcode != JMP)
    && (j.None? ==> forall k :: from <= k < to ==> b[k].opcode != JMP)
  }

  /** The first JMP in positions `from` up to `to`. */
  function FirstJump(b: Block, from: nat, to: nat): (j: Option<nat>)
    requires to <= |b|
    ensures j.Some? ==> from <= j.value < to && b[j.value].opcode == JMP
    decreases if from < to then to - from else 0
  {
    if from >= to then None
    else if b[from].opcode == JMP then Some(from)
    else FirstJump(b, from + 1, to)
  }

  lemma {:induction false} FirstJumpIs(b: Block, from: nat, to: nat)
    requires to <= |b|
    ensures IsFirstJump(b, from, to, FirstJump(b, from, to))
    decreases if from < to then to - from else 0
  {
    if from < to && b[from].opcode != JMP {
      FirstJumpIs(b, from + 1, to);
    }
  }

  lemma FirstJumpUnique(b: Block, from: nat, to: nat, j: Option<nat>)
    requires to <= |b| && IsFirstJump(b, from, to, j)
    ensures FirstJump(b, from, to) == j
  {
    FirstJumpIs(b, from, to);
  }

  /** Both searches only look at the instructions below `i`. */
  lemma SamePrefix(b: Block, c: Block, i: nat, from: nat)
    requires i <= |b| && i <= |c| && b[..i] == c[..i]
    ensures RunStartAt(b, i) == RunStartAt(c, i)
    ensures FirstJump(b, from, i) == FirstJump(c, from, i)
  {
    assert forall k :: 0 <= k < i ==> b[k] == b[..i][k];
    assert forall k :: 0 <= k < i ==> c[k] == c[..i][k];
    RunStartIs(b, i);
    RunStartUnique(c, i, RunStartAt(b, i));
    FirstJumpIs(b, from, i);
    FirstJumpUnique(c, from, i, FirstJump(b, from, i));
  }

  /** Extending the searched range by one position. */
  lemma {:induction false} FirstJumpExtend(b: Block, from: nat, to: nat)
    requires from < to <= |b|
    ensures FirstJump(b, from, to) ==
              (if FirstJump(b, from, to - 1).Some? then FirstJump(b, from, to - 1)
               else if b[to - 1].opcode == JMP then Some(to - 1)
               else None)
    decreases if from < to then to - from else 0
  {
    if from < to - 1 && b[from].opcode != JMP {
      FirstJumpExtend(b, from + 1, to);
    }
  }

  /** A block whose last instruction other than debug instructions is a JMP. */
  predicate EndsInJump(b: Block)
  {
    FirstJump(b, RunStart(b), |b|).Some?
  }

  // ---------------------------------------------------------------------------
  // analyzeBranch

  /** State and outcome of analyzeBranch: whether the block is unanalyzable
      (the function result `true`), the possibly edited block, and TBB, FBB
      and Cond. */
  datatype Analysis = Analysis(unanalyzable: bool, block: Block, tbb: Option<nat>, fbb: Option<nat>, cond: seq<Operand>)

  /** What the scan does on meeting the JMP at position `i - 1`. */
  function TakeJump(a: Analysis, i: nat, allowModify: bool, succ: Option<nat>): (r: Analysis)
    requires 0 < i <= |a.block| && a.block[i - 1].opcode == JMP
    ensures i - 1 <= |r.block|
  {
    var mi := a.block[i - 1];
    if !allowModify then a.(tbb := JumpTarget(mi))
    // with modification allowed, everything after the JMP is erased
    else if ToLayoutSuccessor(mi, succ) then
      // the JMP itself is a fall-through: erase it too and rescan from the new end
      Analysis(a.unanalyzable, a.block[..i - 1], None, None, [])
    else Analysis(a.unanalyzable, a.block[..i], JumpTarget(mi), None, [])
  }

  /** The backward scan, `i` instructions from the start still to be examined. */
  function AnalyzeFrom(a: Analysis, i: nat, allowModify: bool, succ: Option<nat>): Analysis
    requires i <= |a.block|
    decreases i
  {
    if i == 0 then a
    else
      var mi := a.block[i - 1];
      if IsDebug(mi.opcode) then AnalyzeFrom(a, i - 1, allowModify, succ)
      else if !IsTerminator(mi.opcode) then a
      else if !IsBranch(mi.opcode) then a.(unanalyzable := true)
      else if mi.opcode == JMP then AnalyzeFrom(TakeJump(a, i, allowModify, succ), i - 1, allowModify, succ)
      else a.(unanalyzable := true)
  }

  /** The outcome analyzeBranch promises for the first `i` instructions of the
      block, read off their trailing run: its topmost JMP, and the instruction
      just above it. */
  function Expected(a: Analysis, i: nat, allowModify: bool, succ: Option<nat>): Analysis
    requires i <= |a.block|
  {
    var b := a.block;
    var s := RunStartAt(b, i);
    var j := FirstJump(b, s, i);
    var bad := a.unanalyzable || (s > 0 && IsTerminator(b[s - 1].opcode));
    if !allowModify || j.None? then
      a.(unanalyzable := bad, tbb := if j.Some? then JumpTarget(b[j.value]) else a.tbb)
    else if ToLayoutSuccessor(b[j.value], succ) then Analysis(bad, b[..j.value], None, None, [])
    else Analysis(bad, b[..j.value + 1], JumpTarget(b[j.value]), None, [])
  }

  /** Looking one run member further down finds the same run start, and the
      same topmost JMP unless that member is the only JMP. */
  lemma RunStep(b: Block, i: nat)
    requires 0 < i <= |b| && InRun(b[i - 1])
    ensures RunStartAt(b, i) == RunStartAt(b, i - 1) <= i - 1
    ensures var s := RunStartAt(b, i);
            FirstJump(b, s, i) ==
              (if FirstJump(b, s, i - 1).Some? then FirstJump(b, s, i - 1)
               else if b[i - 1].opcode == JMP then Some(i - 1)
               else None)
  {
    FirstJumpExtend(b, RunStartAt(b, i), i);
  }

  /** `c` agrees with `b` below `i`: the run and its topmost JMP are the
      same, and so are the instructions and prefixes Expected looks at. */
  lemma AgreeBelow(b: Block, c: Block, i: nat)
    requires i <= |b| && i <= |c| && b[..i] == c[..i]
    ensures var s := RunStartAt(b, i);
            var j := FirstJump(b, s, i);
            && RunStartAt(c, i) == s && FirstJump(c, s, i) == j
            && (s > 0 ==> b[s - 1] == c[s - 1])
            && (j.Some? ==> b[j.value] == c[j.value] && b[..j.value] == c[..j.value]
                            && b[..j.value + 1] == c[..j.value + 1])
  {
    var s := RunStartAt(b, i);
    SamePrefix(b, c, i, s);
    SameBelow(b, c, i, s, FirstJump(b, s, i));
  }

  /** `c` agrees with `b` below `i`, where the block operations of Expected
      look. */
  lemma SameBelow(b: Block, c: Block, i: nat, s: nat, j: Option<nat>)
    requires i <= |b| && i <= |c| && b[..i] == c[..i] && s <= i
    requires j.Some? ==> j.value < i
    ensures s > 0 ==> b[s - 1] == c[s - 1]
    ensures j.Some? ==> b[j.value] == c[j.value] && b[..j.value] == c[..j.value]
                        && b[..j.value + 1] == c[..j.value + 1]
  {
    assert forall k :: 0 <= k < i ==> b[k] == b[..i][k] && c[k] == c[..i][k];
    if j.Some? {
      assert b[..j.value] == b[..i][..j.value];
      assert c[..j.value] == c[..i][..j.value];
      assert b[..j.value + 1] == b[..i][..j.value + 1];
      assert c[..j.value + 1] == c[..i][..j.value + 1];
    }
  }

  lemma ExpectedDebugStep(a: Analysis, i: nat, allowModify: bool, succ: Option<nat>)
    requires 0 < i <= |a.block| && IsDebug(a.block[i - 1].opcode)
    ensures Expected(a, i, allowModify, succ) == Expected(a, i - 1, allowModify, succ)
  {
    RunStep(a.block, i);
  }

  lemma ExpectedJumpKeep(a: Analysis, i: nat, succ: Option<nat>)
    requires 0 < i <= |a.block| && a.block[i - 1].opcode == JMP
    ensures Expected(a, i, false, succ) == Expected(TakeJump(a, i, false, succ), i - 1, false, succ)
  {
    RunStep(a.block, i);
  }

  lemma ExpectedJumpErase(a: Analysis, i: nat, succ: Option<nat>)
    requires 0 < i <= |a.block| && a.block[i - 1].opcode == JMP && ToLayoutSuccessor(a.block[i - 1], succ)
    ensures Expected(a, i, true, succ) == Expected(TakeJump(a, i, true, succ), i - 1, true, succ)
  {
    RunStep(a.block, i);
    AgreeBelow(a.block, a.block[..i - 1], i - 1);
  }

  lemma ExpectedJumpTrim(a: Analysis, i: nat, succ: Option<nat>)
    requires 0 < i <= |a.block| && a.block[i - 1].opcode == JMP && !ToLayoutSuccessor(a.block[i - 1], succ)
    ensures Expected(a, i, true, succ) == Expected(TakeJump(a, i, true, succ), i - 1, true, succ)
  {
    if FirstJump(a.block, RunStartAt(a.block, i - 1), i - 1).None? {
      TrimLast(a, i, succ);
    } else {
      TrimAbove(a, i, succ);
    }
  }

  /** Trimming below a JMP that is the only JMP of the run. */
  lemma TrimLast(a: Analysis, i: nat, succ: Option<nat>)
    requires 0 < i <= |a.block| && a.block[i - 1].opcode == JMP && !ToLayoutSuccessor(a.block[i - 1], succ)
    requires FirstJump(a.block, RunStartAt(a.block, i - 1), i - 1).None?
    ensures Expected(a, i, true, succ) == Expected(TakeJump(a, i, true, succ), i - 1, true, succ)
  {
    var b := a.block;
    var t := TakeJump(a, i, true, succ);
    assert t == Analysis(a.unanalyzable, b[..i], JumpTarget(b[i - 1]), None, []);
    TrimLastAbove(a, i, succ);
    TrimLastBelow(t, i - 1, b, succ);
  }

  /** Above the scan point, the only JMP of the run is the one just examined. */
  lemma TrimLastAbove(a: Analysis, i: nat, succ: Option<nat>)
    requires 0 < i <= |a.block| && a.block[i - 1].opcode == JMP && !ToLayoutSuccessor(a.block[i - 1], succ)
    requires FirstJump(a.block, RunStartAt(a.block, i - 1), i - 1).None?
    ensures var b := a.block;
            var s := RunStartAt(b, i - 1);
            Expected(a, i, true, succ)
              == Analysis(a.unanalyzable || (s > 0 && IsTerminator(b[s - 1].opcode)),
                          b[..i], JumpTarget(b[i - 1]), None, [])
  {
    RunStep(a.block, i);
  }

  /** Below the scan point of the trimmed block no JMP is left in the run,
      so only the flag changes. */
  lemma TrimLastBelow(t: Analysis, k: nat, b: Block, succ: Option<nat>)
    requires k < |b| && t.block == b[..k + 1]
    requires FirstJump(b, RunStartAt(b, k), k).None?
    ensures var s := RunStartAt(b, k);
            Expected(t, k, true, succ)
              == t.(unanalyzable := t.unanalyzable || (s > 0 && IsTerminator(b[s - 1].opcode)))
  {
    AgreeBelow(b, t.block, k);
  }

  /** Trimming below a JMP with another JMP above it in the run. */
  lemma TrimAbove(a: Analysis, i: nat, succ: Option<nat>)
    requires 0 < i <= |a.block| && a.block[i - 1].opcode == JMP && !ToLayoutSuccessor(a.block[i - 1], succ)
    requires FirstJump(a.block, RunStartAt(a.block, i - 1), i - 1).Some?
    ensures Expected(a, i, true, succ) == Expected(TakeJump(a, i, true, succ), i - 1, true, succ)
  {
    var b := a.block;
    var t := TakeJump(a, i, true, succ);
    assert t == Analysis(a.unanalyzable, b[..i], JumpTarget(b[i - 1]), None, []);
    JumpAboveStep(a, i, succ);
    TrimAboveBelow(a, t, i - 1, succ);
  }

  /** With a JMP higher in the run, the one just examined does not change
      which JMP is topmost. */
  lemma JumpAboveStep(a: Analysis, i: nat, succ: Option<nat>)
    requires 0 < i <= |a.block| && a.block[i - 1].opcode == JMP
    requires FirstJump(a.block, RunStartAt(a.block, i - 1), i - 1).Some?
    ensures Expected(a, i, true, succ) == Expected(a, i - 1, true, succ)
  {
    RunStep(a.block, i);
  }

  /** Expected with modification allowed only looks below the topmost JMP of
      the run, so a block that agrees up to the scan point gives the same
      outcome. */
  lemma TrimAboveBelow(a: Analysis, t: Analysis, k: nat, succ: Option<nat>)
    requires k < |a.block| && t.block == a.block[..k + 1] && t.unanalyzable == a.unanalyzable
    requires FirstJump(a.block, RunStartAt(a.block, k), k).Some?
    ensures Expected(t, k, true, succ) == Expected(a, k, true, succ)
  {
    AgreeBelow(a.block, t.block, k);
  }

  lemma ExpectedJumpStep(a: Analysis, i: nat, allowModify: bool, succ: Option<nat>)
    requires 0 < i <= |a.block| && a.block[i - 1].opcode == JMP
    ensures Expected(a, i, allowModify, succ) == Expected(TakeJump(a, i, allowModify, succ), i - 1, allowModify, succ)
  {
    if !allowModify {
      ExpectedJumpKeep(a, i, succ);
    } else if ToLayoutSuccessor(a.block[i - 1], succ) {
      ExpectedJumpErase(a, i, succ);
    } else {
      ExpectedJumpTrim(a, i, succ);
    }
  }

  lemma ExpectedStop(a: Analysis, i: nat, allowModify: bool, succ: Option<nat>)
    requires 0 < i <= |a.block| && !InRun(a.block[i - 1])
    ensures Expected(a, i, allowModify, succ) ==
            a.(unanalyzable := a.unanalyzable || IsTerminator(a.block[i - 1].opcode))
  {
  }

  /** The scan computes the outcome read off the trailing run. */
  lemma {:induction false} AnalyzeFromSpec(a: Analysis, i: nat, allowModify: bool, succ: Option<nat>)
    requires i <= |a.block|
    ensures AnalyzeFrom(a, i, allowModify, succ) == Expected(a, i, allowModify, succ)
    decreases i
  {
    if i == 0 {
    } else if IsDebug(a.block[i - 1].opcode) {
      AnalyzeFromSpec(a, i - 1, allowModify, succ);
      ExpectedDebugStep(a, i, allowModify, succ);
    } else if a.block[i - 1].opcode == JMP {
      AnalyzeFromSpec(TakeJump(a, i, allowModify, succ), i - 1, allowModify, succ);
      ExpectedJumpStep(a, i, allowModify, succ);
    } else {
      ExpectedStop(a, i, allowModify, succ);
    }
  }

  /** analyzeBranch. With modification disallowed the block, FBB and Cond are
      untouched and TBB is the target of the topmost JMP of the trailing run.
      With modification allowed and a JMP in that run, everything below the
      topmost JMP is erased, Cond is cleared and FBB reset, and the JMP is
      erased too (TBB none) when it targets the layout successor. The result
      is true exactly when the instruction above the run is a terminator
      other than a JMP. */
  function AnalyzeBranch(b: Block, tbb: Option<nat>, fbb: Option<nat>, cond: seq<Operand>,
                         allowModify: bool, succ: Option<nat>): (r: Analysis)
    ensures r == Expected(Analysis(false, b, tbb, fbb, cond), |b|, allowModify, succ)
    ensures r.unanalyzable <==> RunStart(b) > 0 && IsTerminator(b[RunStart(b) - 1].opcode)
    ensures |r.block| <= |b| && r.block == b[..|r.block|]
    ensures !allowModify ==> r.block == b && r.fbb == fbb && r.cond == cond
  {
    var start := Analysis(false, b, tbb, fbb, cond);
    AnalyzeFromSpec(start, |b|, allowModify, succ);
    AnalyzeFrom(start, |b|, allowModify, succ)
  }

  // ---------------------------------------------------------------------------
  // insertBranch

  /** insertBranch: an unconditional JMP to TBB appended to the block, count 1;
      a non-empty condition is fatal. A fall-through (no TBB) and a second
      target without a condition are caller errors. */
  function InsertBranch(b: Block, tbb: Option<nat>, fbb: Option<nat>, cond: seq<Operand>): (r: Result<(Block, nat)>)
    requires tbb.Some?
    requires cond == [] ==> fbb.None?
    ensures r.Fatal? <==> cond != []
    ensures r.Ok? ==> r.value.1 == 1 && |r.value.0| == |b| + 1 && r.value.0[..|b|] == b
    ensures r.Ok? ==> r.value.0[|b|] == Instr(JMP, [MBB(tbb.value)])
  {
    if cond == [] then Ok((b + [Instr(JMP, [MBB(tbb.value)])], 1))
    else Fatal("Unexpected conditional branch")
  }

  // ---------------------------------------------------------------------------
  // removeBranch

  /** The backward scan of removeBranch; after each erased JMP it restarts
      from the end of the block. */
  function RemoveFrom(b: Block, i: nat, count: nat): (Block, nat)
    requires i <= |b|
    decreases |b|, i
  {
    if i == 0 then (b, count)
    else if IsDebug(b[i - 1].opcode) then RemoveFrom(b, i - 1, count)
    else if b[i - 1].opcode != JMP then (b, count)
    else
      var b' := b[..i - 1] + b[i..];
      RemoveFrom(b', |b'|, count + 1)
  }

  /** The debug instructions of a sequence, in order. */
  function KeepDebug(t: seq<Instr>): seq<Instr>
  {
    if t == [] then [] else (if IsDebug(t[0].opcode) then [t[0]] else []) + KeepDebug(t[1..])
  }

  /** The number of JMPs in a sequence. */
  function CountJumps(t: seq<Instr>): nat
  {
    if t == [] then 0 else (if t[0].opcode == JMP then 1 else 0) + CountJumps(t[1..])
  }

  lemma {:induction false} SplitCounts(x: seq<Instr>, y: seq<Instr>)
    ensures KeepDebug(x + y) == KeepDebug(x) + KeepDebug(y)
    ensures CountJumps(x + y) == CountJumps(x) + CountJumps(y)
  {
    SplitKeepDebug(x, y);
    SplitCountJumps(x, y);
  }

  lemma {:induction false} SplitKeepDebug(x: seq<Instr>, y: seq<Instr>)
    ensures KeepDebug(x + y) == KeepDebug(x) + KeepDebug(y)
  {
    if x != [] {
      var t := x + y;
      assert t[0] == x[0] && t[1..] == x[1..] + y;
      SplitKeepDebug(x[1..], y);
      var h := if IsDebug(x[0].opcode) then [x[0]] else [];
      assert KeepDebug(t) == h + (KeepDebug(x[1..]) + KeepDebug(y));
      assert KeepDebug(x) == h + KeepDebug(x[1..]);
    } else {
      assert x + y == y;
    }
  }

  lemma {:induction false} SplitCountJumps(x: seq<Instr>, y: seq<Instr>)
    ensures CountJumps(x + y) == CountJumps(x) + CountJumps(y)
  {
    if x != [] {
      var t := x + y;
      assert t[0] == x[0] && t[1..] == x[1..] + y;
      SplitCountJumps(x[1..], y);
    } else {
      assert x + y == y;
    }
  }

  lemma {:induction false} AllDebug(t: seq<Instr>)
    requires forall k :: 0 <= k < |t| ==> IsDebug(t[k].opcode)
    ensures KeepDebug(t) == t && CountJumps(t) == 0
  {
    if t != [] {
      AllDebug(t[1..]);
    }
  }

  /** A run that stops at `i`, with only debug instructions from `i` on. */
  lemma RunStopsAt(b: Block, i: nat)
    requires i <= |b| && (i > 0 ==> !InRun(b[i - 1]))
    requires forall k :: i <= k < |b| ==> IsDebug(b[k].opcode)
    ensures RunStart(b) == i
    ensures b[..i] + KeepDebug(b[i..]) == b && CountJumps(b[i..]) == 0
  {
    RunStartUnique(b, |b|, i);
    AllDebug(b[i..]);
    assert b[..i] + b[i..] == b;
  }

  /** Erasing a JMP of the trailing run leaves the run's start where it was. */
  lemma EraseJumpKeepsRun(b: Block, i: nat)
    requires 0 < i <= |b| && b[i - 1].opcode == JMP
    requires forall k :: i <= k < |b| ==> IsDebug(b[k].opcode)
    ensures RunStart(b[..i - 1] + b[i..]) == RunStart(b) <= i - 1
  {
    RunStartIs(b, |b|);
    var s := RunStart(b);
    if s >= i {
      assert InRun(b[s - 1]);
      assert false;
    }
    var b' := b[..i - 1] + b[i..];
    forall k | s <= k < |b'|
      ensures InRun(b'[k])
    {
      if k < i - 1 {
        assert b'[k] == b[k];
      } else {
        assert b'[k] == b[k + 1];
      }
    }
    assert s > 0 ==> b'[s - 1] == b[s - 1];
    RunStartUnique(b', |b'|, s);
  }

  /** Erasing a JMP at or below `s` keeps the debug instructions from `s` on
      and lowers the JMP count by one. */
  lemma EraseJumpCounts(b: Block, i: nat, s: nat)
    requires s < i <= |b| && b[i - 1].opcode == JMP
    ensures var b' := b[..i - 1] + b[i..];
            && b'[..s] == b[..s]
            && KeepDebug(b'[s..]) == KeepDebug(b[s..])
            && CountJumps(b[s..]) == CountJumps(b'[s..]) + 1
  {
    var b' := b[..i - 1] + b[i..];
    assert b'[..s] == b[..s];
    assert b'[s..] == b[s..i - 1] + b[i..];
    assert b[s..] == b[s..i - 1] + ([b[i - 1]] + b[i..]);
    SplitCounts(b[s..i - 1], b[i..]);
    SplitCounts(b[s..i - 1], [b[i - 1]] + b[i..]);
    JumpAlone(b[i - 1], b[i..]);
  }

  /** A JMP contributes one to the count and nothing to the kept debug
      instructions. */
  lemma JumpAlone(jmp: Instr, rest: seq<Instr>)
    requires jmp.opcode == JMP
    ensures KeepDebug([jmp] + rest) == KeepDebug(rest)
    ensures CountJumps([jmp] + rest) == 1 + CountJumps(rest)
  {
    assert ([jmp] + rest)[1..] == rest;
  }

  /** What removeBranch promises: the block with the JMPs of its trailing run
      erased and their debug instructions kept, and the number of JMPs erased. */
  function Removed(b: Block): (Block, nat)
  {
    var s := RunStart(b);
    (b[..s] + KeepDebug(b[s..]), CountJumps(b[s..]))
  }

  /** Erasing the JMP at `i - 1` in the state removeBranch's scan is in. */
  lemma EraseJump(b: Block, i: nat)
    requires 0 < i <= |b| && b[i - 1].opcode == JMP
    requires forall k :: i <= k < |b| ==> IsDebug(b[k].opcode)
    ensures var r' := Removed(b[..i - 1] + b[i..]);
            r'.0 == Removed(b).0 && r'.1 + 1 == Removed(b).1
  {
    EraseJumpKeepsRun(b, i);
    EraseJumpCounts(b, i, RunStart(b));
  }

  lemma {:induction false} RemoveFromSpec(b: Block, i: nat, count: nat)
    requires i <= |b|
    requires forall k :: i <= k < |b| ==> IsDebug(b[k].opcode)
    ensures RemoveFrom(b, i, count) == (Removed(b).0, count + Removed(b).1)
    decreases |b|, i
  {
    if i == 0 || !InRun(b[i - 1]) {
      RunStopsAt(b, i);
    } else if IsDebug(b[i - 1].opcode) {
      RemoveFromSpec(b, i - 1, count);
    } else {
      EraseJump(b, i);
      RemoveFromSpec(b[..i - 1] + b[i..], |b| - 1, count + 1);
    }
  }

  /** removeBranch: every JMP of the trailing run is erased and counted, the
      debug instructions among them are kept, and nothing above the run
      changes. */
  function RemoveBranch(b: Block): (r: (Block, nat))
    ensures r == Removed(b)
  {
    RemoveFromSpec(b, |b|, 0);
    RemoveFrom(b, |b|, 0)
  }

  // ---------------------------------------------------------------------------
  // Properties relating the three operations

  /** Appending a JMP to a block that does not end in one extends its run,
      and the appended JMP becomes the run's only JMP. */
  lemma AppendJumpRun(b: Block, t: nat)
    requires !EndsInJump(b)
    ensures var b2 := b + [Instr(JMP, [MBB(t)])];
            RunStart(b2) == RunStart(b) && FirstJump(b2, RunStart(b2), |b2|) == Some(|b|)
    ensures forall k :: RunStart(b) <= k < |b| ==> IsDebug(b[k].opcode)
  {
    var b2 := b + [Instr(JMP, [MBB(t)])];
    var s := RunStart(b);
    RunStartIs(b, |b|);
    FirstJumpIs(b, s, |b|);
    assert forall k :: 0 <= k < |b| ==> b2[k] == b[k];
    RunStartUnique(b2, |b2|, s);
    FirstJumpUnique(b2, s, |b2|, Some(|b|));
  }

  /** The part of the trailing run below its start holds only debug
      instructions when the block does not end in a JMP. */
  lemma RunTailDebug(b: Block)
    requires !EndsInJump(b)
    ensures var s := RunStart(b);
            KeepDebug(b[s..]) == b[s..] && CountJumps(b[s..]) == 0
  {
    var s := RunStart(b);
    RunStartIs(b, |b|);
    FirstJumpIs(b, s, |b|);
    AllDebug(b[s..]);
  }

  /** Appending one instruction leaves the head of the block alone. */
  lemma AppendOne(b: Block, x: Instr, s: nat)
    requires s <= |b|
    ensures (b + [x])[..s] == b[..s] && (b + [x])[s..] == b[s..] + [x]
  {
  }

  /** On a block that does not end in a JMP, inserting a branch and removing
      it again removes exactly one instruction and restores the block. */
  lemma InsertThenRemove(b: Block, t: nat)
    requires !EndsInJump(b)
    ensures var ins := InsertBranch(b, Some(t), None, []);
            ins.Ok? && ins.value.1 == 1 && RemoveBranch(ins.value.0) == (b, 1)
  {
    var jmp := Instr(JMP, [MBB(t)]);
    var b2 := b + [jmp];
    assert InsertBranch(b, Some(t), None, []) == Ok((b2, 1));
    assert Removed(b2) == (b, 1) by {
      RemovedAfterJump(b, t);
    }
  }

  lemma RemovedAfterJump(b: Block, t: nat)
    requires !EndsInJump(b)
    ensures Removed(b + [Instr(JMP, [MBB(t)])]) == (b, 1)
  {
    var jmp := Instr(JMP, [MBB(t)]);
    var s := RunStart(b);
    var b2 := b + [jmp];
    var run := b[s..];
    AppendJumpRun(b, t);
    AppendOne(b, jmp, s);
    assert RunStart(b2) == s && b2[..s] == b[..s] && b2[s..] == run + [jmp];
    RunTailDebug(b);
    assert KeepDebug(run) == run && CountJumps(run) == 0;
    JumpAlone(jmp, []);
    assert [jmp] + [] == [jmp];
    assert KeepDebug([jmp]) == [] && CountJumps([jmp]) == 1;
    SplitCounts(run, [jmp]);
    assert KeepDebug(run + [jmp]) == run + [];
    assert b[..s] + (run + []) == b;
  }

  /** Analysing a block after inserting a branch to `t` recovers `t` as TBB
      with an empty condition; with modification allowed, a branch to the
      layout successor is erased again and leaves a pure fall-through. */
  lemma AnalyzeAfterInsert(b: Block, t: nat, tbb: Option<nat>, fbb: Option<nat>, cond: seq<Operand>,
                           allowModify: bool, succ: Option<nat>)
    requires !EndsInJump(b)
    requires RunStart(b) == 0 || !IsTerminator(b[RunStart(b) - 1].opcode)
    ensures var b2 := InsertBranch(b, Some(t), None, []).value.0;
            var r := AnalyzeBranch(b2, tbb, fbb, cond, allowModify, succ);
            && !r.unanalyzable
            && (!allowModify ==> r.block == b2 && r.tbb == Some(t) && r.fbb == fbb && r.cond == cond)
            && (allowModify ==> r.cond == [] && r.fbb == None)
            && (allowModify && succ == Some(t) ==> r.block == b && r.tbb == None)
            && (allowModify && succ != Some(t) ==> r.block == b2 && r.tbb == Some(t))
  {
    var b2 := b + [Instr(JMP, [MBB(t)])];
    AppendJumpRun(b, t);
    var s := RunStart(b);
    assert s > 0 ==> b2[s - 1] == b[s - 1];
    assert b2[..|b|] == b;
    assert b2[..|b| + 1] == b2;
  }
}
