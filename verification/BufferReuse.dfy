/** Reusing the buffer of a dealloc for the next alloc of a straight-line block. */
module BufferReuse {

  type Value = nat
  type MemRefTypes = Value -> nat

  /** One element of a memref, accessed at the given type. */
  datatype Access = Access(value: Value, index: nat, type_: nat) {
    function At(): Cell { Cell(value, index) }
  }

  /** An element of a buffer. */
  datatype Cell = Cell(buffer: Value, index: nat)

  /** `Use` is any other operation: it reads some elements and then writes others. */
  datatype Op =
    | Alloc(result: Value, dynamic: bool)
    | Dealloc(memref: Value)
    | Use(id: nat, ins: seq<Access>, outs: seq<Access>)

  datatype Mode = Conservative | Aggressive

  // ---------------------------------------------------------------- the pass

  function RenamedAccess(a: Access, w: Value, v: Value): Access {
    if a.value == w then a.(value := v) else a
  }

  function RenamedAll(accesses: seq<Access>, w: Value, v: Value): (r: seq<Access>)
    ensures |r| == |accesses| && forall k :: 0 <= k < |r| ==> r[k] == RenamedAccess(accesses[k], w, v)
  {
    seq(|accesses|, k requires 0 <= k < |accesses| => RenamedAccess(accesses[k], w, v))
  }

  function Renamed(op: Op, w: Value, v: Value): Op {
    match op
    case Alloc(_, _) => op
    case Dealloc(m) => Dealloc(if m == w then v else m)
    case Use(id, ins, outs) => Use(id, RenamedAll(ins, w, v), RenamedAll(outs, w, v))
  }

  function RenamedOps(ops: seq<Op>, w: Value, v: Value): (r: seq<Op>)
    ensures |r| == |ops| && forall k :: 0 <= k < |r| ==> r[k] == Renamed(ops[k], w, v)
  {
    seq(|ops|, k requires 0 <= k < |ops| => Renamed(ops[k], w, v))
  }

  function NextAlloc(ops: seq<Op>, i: nat): (j: nat)
    requires i <= |ops|
    ensures i <= j <= |ops| && (j < |ops| ==> ops[j].Alloc?) && forall k :: i <= k < j ==> !ops[k].Alloc?
    decreases |ops| - i
  {
    if i == |ops| || ops[i].Alloc? then i else NextAlloc(ops, i + 1)
  }

  /** The dealloc at `i` can hand its buffer to the alloc at `j`. */
  predicate Mergeable(ty: MemRefTypes, ops: seq<Op>, i: nat, j: nat) {
    && i < j < |ops| && ops[i].Dealloc? && ops[j].Alloc? && !ops[j].dynamic
    && ty(ops[j].result) == ty(ops[i].memref)
  }

  /** Without the dealloc at `i` and the alloc at `j`, whose uses become uses of the freed buffer. */
  function Merge(ops: seq<Op>, i: nat, j: nat): (r: seq<Op>)
    requires i < j < |ops| && ops[i].Dealloc? && ops[j].Alloc?
    ensures |r| == |ops| - 2
  {
    RenamedOps(ops[..i] + ops[i + 1..j] + ops[j + 1..], ops[j].result, ops[i].memref)
  }

  /** The dealloc at `i` can hand its buffer to the next alloc. */
  predicate MergesNext(ty: MemRefTypes, ops: seq<Op>, i: nat)
    requires i < |ops|
  {
    Mergeable(ty, ops, i, NextAlloc(ops, i + 1))
  }

  /** A block in the middle of the pass. */
  datatype Cursor = Cursor(ops: seq<Op>, i: nat)

  /** One step of the pass; a merge goes on behind the alloc. */
  function Step(ty: MemRefTypes, ops: seq<Op>, i: nat): (c: Cursor)
    requires i < |ops|
    ensures i <= c.i <= |c.ops| && |c.ops| - c.i < |ops| - i
  {
    if MergesNext(ty, ops, i) then Cursor(Merge(ops, i, NextAlloc(ops, i + 1)), NextAlloc(ops, i + 1) - 1)
    else Cursor(ops, i + 1)
  }

  /** The pass from position `i` on. */
  function Reused(ty: MemRefTypes, ops: seq<Op>, i: nat): seq<Op>
    requires i <= |ops|
    decreases |ops| - i
  {
    if i == |ops| then ops
    else
      var c := Step(ty, ops, i);
      Reused(ty, c.ops, c.i)
  }

  /** Whether an operation in front of `end` is an alloc of the given type. */
  method AnyMatchBetween(ty: MemRefTypes, ops: seq<Op>, start: nat, end: nat, type_: nat) returns (found: bool)
    requires start <= end <= |ops|
    ensures found <==> exists k :: start <= k < end && ops[k].Alloc? && ty(ops[k].result) == type_
  {
    for i := start to end
      invariant forall k :: start <= k < i ==> !(ops[k].Alloc? && ty(ops[k].result) == type_)
    {
      if ops[i].Alloc? && ty(ops[i].result) == type_ {
        return true;
      }
    }
    return false;
  }

  method FindAlloc(ops: seq<Op>, start: nat) returns (j: nat)
    requires start <= |ops|
    ensures j == NextAlloc(ops, start)
  {
    j := start;
    while j < |ops| && !ops[j].Alloc?
      invariant start <= j <= |ops| && NextAlloc(ops, j) == NextAlloc(ops, start)
    {
      j := j + 1;
    }
  }

  ghost predicate SomeMerge(ty: MemRefTypes, ops: seq<Op>, start: nat) {
    exists k :: start <= k < |ops| && MergesNext(ty, ops, k)
  }

  /** The pass changes the block if and only if some dealloc can hand its buffer to the next alloc. */
  lemma {:induction false} ReuseChanges(ty: MemRefTypes, ops: seq<Op>, i: nat)
    requires i <= |ops|
    ensures |Reused(ty, ops, i)| <= |ops|
    ensures |Reused(ty, ops, i)| < |ops| <==> SomeMerge(ty, ops, i)
    decreases |ops| - i
  {
    if i < |ops| {
      var c := Step(ty, ops, i);
      ReuseChanges(ty, c.ops, c.i);
      SomeMergeNext(ty, ops, i);
    }
  }

  lemma SomeMergeNext(ty: MemRefTypes, ops: seq<Op>, i: nat)
    requires i < |ops|
    ensures
      var c := Step(ty, ops, i);
      if MergesNext(ty, ops, i) then |c.ops| < |ops| && SomeMerge(ty, ops, i)
      else c.ops == ops && (SomeMerge(ty, ops, i) <==> SomeMerge(ty, ops, c.i))
  {
  }

  class Block {
    var ops: seq<Op>

    constructor (ops: seq<Op>)
      ensures this.ops == ops
    {
      this.ops := ops;
    }

    /** Looks for a merge at one position and says where to go on. */
    method TryMerge(ty: MemRefTypes, mode: Mode, i: nat) returns (merged: bool, next: nat)
      requires i < |ops|
      modifies this
      ensures merged <==> MergesNext(ty, old(ops), i)
      ensures merged ==> ops == Merge(old(ops), i, NextAlloc(old(ops), i + 1)) && next == NextAlloc(old(ops), i + 1) - 1
      ensures !merged ==> ops == old(ops) && next == i + 1
      ensures Cursor(ops, next) == Step(ty, old(ops), i)
    {
      if ops[i].Dealloc? {
        var j := FindAlloc(ops, i + 1);
        var blocked := false;
        if j < |ops| && mode.Conservative? {
          blocked := AnyMatchBetween(ty, ops, i, j, ty(ops[j].result));
        }
        if j == |ops| || blocked {
          return false, i + 1;
        }
        if !ops[j].dynamic && ty(ops[j].result) == ty(ops[i].memref) {
          ops := Merge(ops, i, j);
          return true, j - 1;
        }
      }
      return false, i + 1;
    }

    /** Without regions the two modes do the same: the alloc that is found is the first one anyway. */
    method ReuseBuffers(ty: MemRefTypes, mode: Mode) returns (result: bool)
      modifies this
      ensures ops == Reused(ty, old(ops), 0)
      ensures result <==> SomeMerge(ty, old(ops), 0)
      ensures !result ==> ops == old(ops)
    {
      ReuseChanges(ty, ops, 0);
      result := false;
      var i: nat := 0;
      while i < |ops|
        invariant i <= |ops| <= |old(ops)| && Reused(ty, ops, i) == Reused(ty, old(ops), 0)
        invariant (result <==> |ops| < |old(ops)|) && (!result ==> ops == old(ops))
        decreases |ops| - i
      {
        var merged;
        merged, i := TryMerge(ty, mode, i);
        result := result || merged;
      }
    }
  }

  // ---------------------------------------------------------------- running a block

  /** What an operation writes, given its number, the position of the write and what it has read. */
  type Computation = (nat, nat, seq<int>) -> int

  type Cells = map<Cell, int>

  datatype Event = Event(id: nat, seen: seq<int>)

  /**
   * A state: the live buffers, every value ever defined, the elements written since their buffer was allocated,
   * what the operations have read so far, and whether the discipline was kept.
   */
  datatype State = State(live: set<Value>, defined: set<Value>, cells: Cells, trace: seq<Event>,
                         ok: bool)

  function Forget(cells: Cells, v: Value): Cells {
    map c | c in cells && c.buffer != v :: cells[c]
  }

  predicate CanAccess(ty: MemRefTypes, s: State, a: Access) {
    a.value in s.live && ty(a.value) == a.type_
  }

  predicate CanRead(ty: MemRefTypes, s: State, a: Access) {
    CanAccess(ty, s, a) && a.At() in s.cells
  }

  predicate CanUse(ty: MemRefTypes, s: State, ins: seq<Access>, outs: seq<Access>) {
    && (forall k :: 0 <= k < |ins| ==> CanRead(ty, s, ins[k]))
    && (forall k :: 0 <= k < |outs| ==> CanAccess(ty, s, outs[k]))
  }

  function Seen(ty: MemRefTypes, s: State, ins: seq<Access>): (seen: seq<int>)
    requires forall k :: 0 <= k < |ins| ==> CanRead(ty, s, ins[k])
    ensures |seen| == |ins|
    ensures forall k :: 0 <= k < |seen| ==> CanRead(ty, s, ins[k]) && seen[k] == s.cells[ins[k].At()]
  {
    seq(|ins|, k requires 0 <= k < |ins| => assert CanRead(ty, s, ins[k]); s.cells[ins[k].At()])
  }

  function WriteAll(f: Computation, cells: Cells, outs: seq<Access>, id: nat, seen: seq<int>):
    Cells
  {
    if outs == [] then cells
    else
      var k := |outs| - 1;
      WriteAll(f, cells, outs[..k], id, seen)[outs[k].At() := f(id, k, seen)]
  }

  function Exec(ty: MemRefTypes, f: Computation, op: Op, s: State): State {
    match op
    case Alloc(v, _) =>
      s.(live := s.live + {v}, defined := s.defined + {v}, cells := Forget(s.cells, v), ok := s.ok && v !in s.defined)
    case Dealloc(v) => s.(live := s.live - {v}, cells := Forget(s.cells, v), ok := s.ok && v in s.live)
    case Use(id, ins, outs) =>
      if CanUse(ty, s, ins, outs) then
        var seen := Seen(ty, s, ins);
        s.(cells := WriteAll(f, s.cells, outs, id, seen), trace := s.trace + [Event(id, seen)])
      else s.(ok := false)
  }

  function Run(ty: MemRefTypes, f: Computation, ops: seq<Op>, s: State): State {
    if ops == [] then s else Exec(ty, f, ops[|ops| - 1], Run(ty, f, ops[..|ops| - 1], s))
  }

  lemma {:induction false} RunConcat(ty: MemRefTypes, f: Computation, a: seq<Op>, b: seq<Op>, s: State)
    ensures Run(ty, f, a + b, s) == Run(ty, f, b, Run(ty, f, a, s))
    decreases |b|
  {
    if b == [] {
      assert a + b == a;
    } else {
      RunConcat(ty, f, a, b[..|b| - 1], s);
      assert (a + b)[..|a + b| - 1] == a + b[..|b| - 1];
    }
  }

  lemma {:induction false} OkBefore(ty: MemRefTypes, f: Computation, ops: seq<Op>, s: State)
    requires Run(ty, f, ops, s).ok
    ensures s.ok && s.defined <= Run(ty, f, ops, s).defined
    decreases |ops|
  {
    if ops != [] {
      OkBefore(ty, f, ops[..|ops| - 1], s);
    }
  }

  // ---------------------------------------------------------------- simulation

  /** Buffer `v` is kept although the source has freed it. */
  ghost predicate Kept(s: State, t: State, v: Value) {
    && t == s.(live := t.live, cells := t.cells) && v !in s.live && v in s.defined && t.live == s.live + {v}
    && forall c: Cell :: c.buffer != v ==> SameCell(s, c, t, c)
  }

  ghost predicate SameCell(s: State, c: Cell, t: State, d: Cell) {
    (c in s.cells <==> d in t.cells) && (c in s.cells ==> s.cells[c] == t.cells[d])
  }

  /** What the source finds in a cell is found in the renamed cell. */
  ghost predicate Mirrors(s: State, t: State, w: Value, v: Value, c: Cell) {
    c in s.cells ==> RenamedCell(c, w, v) in t.cells && t.cells[RenamedCell(c, w, v)] == s.cells[c]
  }

  function RenamedCell(c: Cell, w: Value, v: Value): Cell {
    if c.buffer == w then c.(buffer := v) else c
  }

  /** Buffer `v` takes the place of `w`; what was written to `w` is found in `v`. */
  ghost predicate Replaced(s: State, t: State, v: Value, w: Value) {
    && v != w && v in s.defined && w in s.defined && v !in s.live && s.ok
    && t == s.(live := t.live, cells := t.cells, defined := s.defined - {w})
    && t.live == (if w in s.live then s.live - {w} + {v} else s.live)
    && forall c: Cell :: c.buffer != v ==> Mirrors(s, t, w, v, c)
  }

  // ---------------------------------------------------------------- before the alloc: the buffer is only kept

  lemma {:induction false} WriteAllSame(f: Computation, s: State, t: State, outs: seq<Access>, id: nat, seen: seq<int>,
                                        c: Cell)
    requires SameCell(s, c, t, c)
    ensures SameCell(s.(cells := WriteAll(f, s.cells, outs, id, seen)), c,
                     t.(cells := WriteAll(f, t.cells, outs, id, seen)), c)
    decreases |outs|
  {
    if outs != [] {
      WriteAllSame(f, s, t, outs[..|outs| - 1], id, seen, c);
    }
  }

  lemma KeptUse(ty: MemRefTypes, f: Computation, s: State, t: State, v: Value, id: nat, ins: seq<Access>,
                outs: seq<Access>)
    requires Kept(s, t, v) && CanUse(ty, s, ins, outs)
    ensures Kept(Exec(ty, f, Use(id, ins, outs), s), Exec(ty, f, Use(id, ins, outs), t), v)
  {
    forall k | 0 <= k < |ins|
      ensures CanRead(ty, t, ins[k]) && t.cells[ins[k].At()] == s.cells[ins[k].At()]
    {
      assert CanRead(ty, s, ins[k]);
      assert SameCell(s, ins[k].At(), t, ins[k].At());
    }
    forall k | 0 <= k < |outs|
      ensures CanAccess(ty, t, outs[k])
    {
      assert CanAccess(ty, s, outs[k]);
    }
    var seen := Seen(ty, s, ins);
    assert Seen(ty, t, ins) == seen;
    forall c: Cell | c.buffer != v
      ensures SameCell(Exec(ty, f, Use(id, ins, outs), s), c, Exec(ty, f, Use(id, ins, outs), t), c)
    {
      WriteAllSame(f, s, t, outs, id, seen, c);
    }
  }

  lemma KeptStep(ty: MemRefTypes, f: Computation, s: State, t: State, v: Value, op: Op)
    requires Kept(s, t, v) && Exec(ty, f, op, s).ok && !op.Alloc?
    ensures Kept(Exec(ty, f, op, s), Exec(ty, f, op, t), v)
  {
    match op {
      case Dealloc(u) =>
        var s', t' := Exec(ty, f, op, s), Exec(ty, f, op, t);
        forall c: Cell | c.buffer != v
          ensures SameCell(s', c, t', c)
        {
          assert SameCell(s, c, t, c);
        }
      case Use(id, ins, outs) => KeptUse(ty, f, s, t, v, id, ins, outs);
    }
  }

  lemma {:induction false} KeptRun(ty: MemRefTypes, f: Computation, s: State, t: State, v: Value, ops: seq<Op>)
    requires Kept(s, t, v) && Run(ty, f, ops, s).ok && forall k :: 0 <= k < |ops| ==> !ops[k].Alloc?
    ensures Kept(Run(ty, f, ops, s), Run(ty, f, ops, t), v)
    decreases |ops|
  {
    if ops != [] {
      KeptRun(ty, f, s, t, v, ops[..|ops| - 1]);
      KeptStep(ty, f, Run(ty, f, ops[..|ops| - 1], s), Run(ty, f, ops[..|ops| - 1], t), v, ops[|ops| - 1]);
    }
  }

  // ---------------------------------------------------------------- behind the alloc: the buffer is used instead

  lemma {:induction false} WriteAllRenamed(f: Computation, s: State, t: State, outs: seq<Access>, id: nat,
                                           seen: seq<int>, w: Value, v: Value, c: Cell)
    requires v != w && c.buffer != v && forall k :: 0 <= k < |outs| ==> outs[k].value != v
    requires Mirrors(s, t, w, v, c)
    ensures Mirrors(s.(cells := WriteAll(f, s.cells, outs, id, seen)),
                    t.(cells := WriteAll(f, t.cells, RenamedAll(outs, w, v), id, seen)), w, v, c)
    decreases |outs|
  {
    if outs != [] {
      var init, last := outs[..|outs| - 1], outs[|outs| - 1];
      WriteAllRenamed(f, s, t, init, id, seen, w, v, c);
      assert RenamedAll(outs, w, v)[..|outs| - 1] == RenamedAll(init, w, v);
      assert RenamedAll(outs, w, v)[|outs| - 1].At() == RenamedCell(last.At(), w, v);
    }
  }

  /** The operation mentions neither the freed buffer nor, when it allocates, the replaced one. */
  lemma ReplacedUse(ty: MemRefTypes, f: Computation, s: State, t: State, v: Value, w: Value, id: nat,
                    ins: seq<Access>, outs: seq<Access>)
    requires Replaced(s, t, v, w) && CanUse(ty, s, ins, outs) && ty(v) == ty(w)
    ensures Replaced(Exec(ty, f, Use(id, ins, outs), s), Exec(ty, f, Renamed(Use(id, ins, outs), w, v), t), v, w)
  {
    var ins', outs' := RenamedAll(ins, w, v), RenamedAll(outs, w, v);
    forall k | 0 <= k < |ins|
      ensures CanRead(ty, t, ins'[k]) && t.cells[ins'[k].At()] == s.cells[ins[k].At()]
    {
      assert CanRead(ty, s, ins[k]);
      assert Mirrors(s, t, w, v, ins[k].At());
      assert ins'[k].At() == RenamedCell(ins[k].At(), w, v);
    }
    forall k | 0 <= k < |outs|
      ensures CanAccess(ty, t, outs'[k]) && outs[k].value != v
    {
      assert CanAccess(ty, s, outs[k]);
    }
    var seen := Seen(ty, s, ins);
    assert Seen(ty, t, ins') == seen;
    forall c: Cell | c.buffer != v
      ensures Mirrors(Exec(ty, f, Use(id, ins, outs), s), Exec(ty, f, Use(id, ins', outs'), t), w, v, c)
    {
      WriteAllRenamed(f, s, t, outs, id, seen, w, v, c);
    }
  }

  lemma ReplacedStep(ty: MemRefTypes, f: Computation, s: State, t: State, v: Value, w: Value, op: Op)
    requires Replaced(s, t, v, w) && Exec(ty, f, op, s).ok && ty(v) == ty(w)
    ensures Replaced(Exec(ty, f, op, s), Exec(ty, f, Renamed(op, w, v), t), v, w)
  {
    match op {
      case Alloc(u, _) =>
        var s', t' := Exec(ty, f, op, s), Exec(ty, f, op, t);
        forall c: Cell | c.buffer != v
          ensures Mirrors(s', t', w, v, c)
        {
          assert Mirrors(s, t, w, v, c);
        }
      case Dealloc(u) =>
        var s', t' := Exec(ty, f, op, s), Exec(ty, f, Renamed(op, w, v), t);
        forall c: Cell | c.buffer != v
          ensures Mirrors(s', t', w, v, c)
        {
          assert Mirrors(s, t, w, v, c);
        }
      case Use(id, ins, outs) => ReplacedUse(ty, f, s, t, v, w, id, ins, outs);
    }
  }

  lemma {:induction false} ReplacedRun(ty: MemRefTypes, f: Computation, s: State, t: State, v: Value, w: Value,
                                       ops: seq<Op>)
    requires Replaced(s, t, v, w) && Run(ty, f, ops, s).ok && ty(v) == ty(w)
    ensures Replaced(Run(ty, f, ops, s), Run(ty, f, RenamedOps(ops, w, v), t), v, w)
    decreases |ops|
  {
    if ops != [] {
      var init := ops[..|ops| - 1];
      assert RenamedOps(ops, w, v)[..|ops| - 1] == RenamedOps(init, w, v);
      ReplacedRun(ty, f, s, t, v, w, init);
      ReplacedStep(ty, f, Run(ty, f, init, s), Run(ty, f, RenamedOps(init, w, v), t), v, w, ops[|ops| - 1]);
    }
  }

  // ---------------------------------------------------------------- one merge

  /** Before its alloc, a value is used nowhere, so renaming it changes nothing. */
  lemma RenameUnused(ty: MemRefTypes, f: Computation, op: Op, s: State, w: Value, v: Value)
    requires Exec(ty, f, op, s).ok && w !in s.defined && s.live <= s.defined
    ensures Renamed(op, w, v) == op
  {
    match op {
      case Alloc(_, _) =>
      case Dealloc(_) =>
      case Use(id, ins, outs) =>
        assert forall k :: 0 <= k < |ins| ==> CanRead(ty, s, ins[k]);
        assert forall k :: 0 <= k < |outs| ==> CanAccess(ty, s, outs[k]);
        assert RenamedAll(ins, w, v) == ins && RenamedAll(outs, w, v) == outs;
    }
  }

  lemma {:induction false} RenameUnusedOps(ty: MemRefTypes, f: Computation, ops: seq<Op>, s: State, w: Value, v: Value)
    requires Run(ty, f, ops, s).ok && w !in Run(ty, f, ops, s).defined && s.live <= s.defined
    ensures RenamedOps(ops, w, v) == ops
    ensures Run(ty, f, ops, s).live <= Run(ty, f, ops, s).defined
    decreases |ops|
  {
    if ops != [] {
      var init, last := ops[..|ops| - 1], ops[|ops| - 1];
      RenameUnusedOps(ty, f, init, s, w, v);
      RenameUnused(ty, f, last, Run(ty, f, init, s), w, v);
      assert RenamedOps(ops, w, v)[..|ops| - 1] == RenamedOps(init, w, v);
    }
  }

  /** What a caller sees of a run: the discipline, everything that was read, and the buffers that are left. */
  ghost predicate SameOutcome(s: State, t: State) {
    && t.ok && t.trace == s.trace && t.live == s.live
    && forall c: Cell :: c in s.cells && c.buffer in s.live ==> c in t.cells && t.cells[c] == s.cells[c]
  }

  /** The run keeps the discipline, and every buffer it allocates is deallocated again. */
  ghost predicate Disciplined(ty: MemRefTypes, f: Computation, ops: seq<Op>, s: State) {
    && s.live <= s.defined && Run(ty, f, ops, s).ok && Run(ty, f, ops, s).live <= s.live
  }

  lemma OutcomeTransitive(s: State, t: State, u: State)
    requires SameOutcome(s, t) && SameOutcome(t, u)
    ensures SameOutcome(s, u)
  {
  }

  lemma BlockParts(ops: seq<Op>, i: nat, j: nat)
    requires i < j < |ops|
    ensures ops == ops[..i + 1] + (ops[i + 1..j + 1] + ops[j + 1..])
    ensures ops[..i + 1][..i] == ops[..i] && ops[..i + 1][i] == ops[i]
    ensures ops[i + 1..j + 1][..j - i - 1] == ops[i + 1..j] && ops[i + 1..j + 1][j - i - 1] == ops[j]
  {
    assert ops == ops[..i + 1] + ops[i + 1..];
    assert ops[i + 1..] == ops[i + 1..j + 1] + ops[j + 1..];
  }

  /** The parts of a block around a dealloc and the next alloc. */
  lemma RunParts(ty: MemRefTypes, f: Computation, ops: seq<Op>, i: nat, j: nat, s: State)
    requires i < j < |ops|
    ensures Run(ty, f, ops, s)
         == Run(ty, f, ops[j + 1..],
                Exec(ty, f, ops[j], Run(ty, f, ops[i + 1..j], Exec(ty, f, ops[i], Run(ty, f, ops[..i], s)))))
  {
    BlockParts(ops, i, j);
    RunConcat(ty, f, ops[..i + 1], ops[i + 1..j + 1] + ops[j + 1..], s);
    RunConcat(ty, f, ops[i + 1..j + 1], ops[j + 1..], Run(ty, f, ops[..i + 1], s));
  }

  lemma MergeParts(ops: seq<Op>, i: nat, j: nat)
    requires i < j < |ops| && ops[i].Dealloc? && ops[j].Alloc?
    ensures
      var w, v := ops[j].result, ops[i].memref;
      Merge(ops, i, j)
      == RenamedOps(ops[..i], w, v) + RenamedOps(ops[i + 1..j], w, v) + RenamedOps(ops[j + 1..], w, v)
  {
  }

  /** At the alloc, the kept buffer takes the place of the new one. */
  lemma KeptBecomesReplaced(ty: MemRefTypes, f: Computation, s: State, t: State, v: Value, alloc: Op)
    requires Kept(s, t, v) && alloc.Alloc? && Exec(ty, f, alloc, s).ok && s.live <= s.defined
    ensures Replaced(Exec(ty, f, alloc, s), t, v, alloc.result)
  {
    var w := alloc.result;
    var s' := Exec(ty, f, alloc, s);
    assert t.live == s'.live - {w} + {v};
    forall c: Cell | c.buffer != v
      ensures Mirrors(s', t, w, v, c)
    {
      assert SameCell(s, c, t, c);
    }
  }

  lemma DeallocKeeps(ty: MemRefTypes, f: Computation, s: State, dealloc: Op)
    requires dealloc.Dealloc? && Exec(ty, f, dealloc, s).ok && s.live <= s.defined
    ensures Kept(Exec(ty, f, dealloc, s), s, dealloc.memref)
  {
  }

  /** Handing the freed buffer to the next alloc changes nothing a caller sees, and keeps the discipline. */
  lemma MergeKeepsOutcome(ty: MemRefTypes, f: Computation, ops: seq<Op>, i: nat, s: State)
    requires i < |ops| && Mergeable(ty, ops, i, NextAlloc(ops, i + 1)) && Disciplined(ty, f, ops, s)
    ensures
      var merged := Merge(ops, i, NextAlloc(ops, i + 1));
      Disciplined(ty, f, merged, s) && SameOutcome(Run(ty, f, ops, s), Run(ty, f, merged, s))
  {
    var j := NextAlloc(ops, i + 1);
    var w, v := ops[j].result, ops[i].memref;
    var a, b, c := ops[..i], ops[i + 1..j], ops[j + 1..];
    RunParts(ty, f, ops, i, j, s);
    MergeParts(ops, i, j);
    var sa := Run(ty, f, a, s);
    var sd := Exec(ty, f, ops[i], sa);
    var sb := Run(ty, f, b, sd);
    var sl := Exec(ty, f, ops[j], sb);
    OkBefore(ty, f, c, sl);
    OkBefore(ty, f, b, sd);
    OkBefore(ty, f, a, s);
    RenameUnusedOps(ty, f, a, s, w, v);
    RenameUnusedOps(ty, f, b, sd, w, v);
    RunConcat(ty, f, a + b, RenamedOps(c, w, v), s);
    RunConcat(ty, f, a, b, s);
    DeallocKeeps(ty, f, sa, ops[i]);
    KeptRun(ty, f, sd, sa, v, b);
    KeptBecomesReplaced(ty, f, sb, Run(ty, f, b, sa), v, ops[j]);
    ReplacedRun(ty, f, sl, Run(ty, f, b, sa), v, w, c);
    ReplacedOutcome(Run(ty, f, c, sl), Run(ty, f, RenamedOps(c, w, v), Run(ty, f, b, sa)), v, w);
  }

  lemma ReplacedOutcome(s: State, t: State, v: Value, w: Value)
    requires Replaced(s, t, v, w) && w !in s.live
    ensures SameOutcome(s, t)
  {
    forall c: Cell | c in s.cells && c.buffer in s.live
      ensures c in t.cells && t.cells[c] == s.cells[c]
    {
      assert Mirrors(s, t, w, v, c);
    }
  }

  // ---------------------------------------------------------------- the whole pass

  function CountAllocs(ops: seq<Op>): nat {
    if ops == [] then 0 else CountAllocs(ops[..|ops| - 1]) + (if ops[|ops| - 1].Alloc? then 1 else 0)
  }

  lemma {:induction false} CountConcat(a: seq<Op>, b: seq<Op>)
    ensures CountAllocs(a + b) == CountAllocs(a) + CountAllocs(b)
    decreases |b|
  {
    if b == [] {
      assert a + b == a;
    } else {
      CountConcat(a, b[..|b| - 1]);
      assert (a + b)[..|a + b| - 1] == a + b[..|b| - 1];
    }
  }

  lemma {:induction false} CountRenamed(ops: seq<Op>, w: Value, v: Value)
    ensures CountAllocs(RenamedOps(ops, w, v)) == CountAllocs(ops)
    decreases |ops|
  {
    if ops != [] {
      CountRenamed(ops[..|ops| - 1], w, v);
      assert RenamedOps(ops, w, v)[..|ops| - 1] == RenamedOps(ops[..|ops| - 1], w, v);
    }
  }

  lemma CountNext(ops: seq<Op>, i: nat)
    requires i < |ops|
    ensures CountAllocs(ops[..i + 1]) == CountAllocs(ops[..i]) + (if ops[i].Alloc? then 1 else 0)
  {
    assert ops[..i + 1][..i] == ops[..i] && ops[..i + 1][i] == ops[i];
  }

  lemma CountWithout(ops: seq<Op>, i: nat)
    requires i < |ops|
    ensures CountAllocs(ops[..i] + ops[i + 1..]) == CountAllocs(ops) - (if ops[i].Alloc? then 1 else 0)
  {
    CountConcat(ops[..i], ops[i + 1..]);
    CountConcat(ops[..i + 1], ops[i + 1..]);
    CountNext(ops, i);
    assert ops == ops[..i + 1] + ops[i + 1..];
  }

  lemma WithoutBoth(ops: seq<Op>, i: nat, j: nat)
    requires i < j < |ops|
    ensures
      var rest := ops[..j] + ops[j + 1..];
      && i < |rest| && rest[i] == ops[i]
      && rest[..i] + rest[i + 1..] == ops[..i] + ops[i + 1..j] + ops[j + 1..]
  {
  }

  lemma MergeSavesOne(ops: seq<Op>, i: nat, j: nat)
    requires i < j < |ops| && ops[i].Dealloc? && ops[j].Alloc?
    ensures CountAllocs(Merge(ops, i, j)) == CountAllocs(ops) - 1
  {
    WithoutBoth(ops, i, j);
    CountWithout(ops, j);
    CountWithout(ops[..j] + ops[j + 1..], i);
    CountRenamed(ops[..i] + ops[i + 1..j] + ops[j + 1..], ops[j].result, ops[i].memref);
  }

  /** As many allocs as deallocs are missing. */
  ghost predicate SavesPairs(ops: seq<Op>, fewer: seq<Op>) {
    |ops| - |fewer| == 2 * (CountAllocs(ops) - CountAllocs(fewer))
  }

  lemma PairsThroughMerge(ops: seq<Op>, i: nat, j: nat, fewer: seq<Op>)
    requires i < j < |ops| && ops[i].Dealloc? && ops[j].Alloc? && SavesPairs(Merge(ops, i, j), fewer)
    ensures SavesPairs(ops, fewer)
  {
    MergeSavesOne(ops, i, j);
  }

  /** Every merge saves one alloc and one dealloc. */
  lemma {:induction false} ReuseSavesAllocs(ty: MemRefTypes, ops: seq<Op>, i: nat)
    requires i <= |ops|
    ensures SavesPairs(ops, Reused(ty, ops, i))
    decreases |ops| - i
  {
    if i < |ops| {
      var c := Step(ty, ops, i);
      ReuseSavesAllocs(ty, c.ops, c.i);
      if MergesNext(ty, ops, i) {
        PairsThroughMerge(ops, i, NextAlloc(ops, i + 1), Reused(ty, ops, i));
      }
    }
  }

  /** The rewritten block keeps the discipline and the outcome. */
  lemma {:induction false} ReuseKeepsOutcome(ty: MemRefTypes, f: Computation, ops: seq<Op>, i: nat, s: State)
    requires i <= |ops| && Disciplined(ty, f, ops, s)
    ensures Disciplined(ty, f, Reused(ty, ops, i), s)
    ensures SameOutcome(Run(ty, f, ops, s), Run(ty, f, Reused(ty, ops, i), s))
    decreases |ops| - i
  {
    if i < |ops| {
      var c := Step(ty, ops, i);
      if MergesNext(ty, ops, i) {
        MergeKeepsOutcome(ty, f, ops, i, s);
      }
      ReuseKeepsOutcome(ty, f, c.ops, c.i, s);
      OutcomeTransitive(Run(ty, f, ops, s), Run(ty, f, c.ops, s), Run(ty, f, Reused(ty, ops, i), s));
    }
  }

  // ---------------------------------------------------------------- exactly what is merged

  predicate NoAllocBetween(ops: seq<Op>, d: int, j: int)
    requires -1 <= d && j <= |ops|
  {
    forall k :: d < k < j ==> !ops[k].Alloc?
  }

  /** The static alloc `j` takes the buffer of dealloc `d`, the first one of its type, from `start` on, behind the
      alloc in front of it. */
  ghost predicate Takes(ty: MemRefTypes, ops: seq<Op>, start: int, d: int, j: int) {
    && 0 <= start <= d && 0 <= j && Mergeable(ty, ops, d, j) && NoAllocBetween(ops, d, j)
    && forall k :: start <= k < d && Mergeable(ty, ops, k, j) ==> !NoAllocBetween(ops, k, j)
  }

  ghost predicate Gone(ty: MemRefTypes, ops: seq<Op>, start: int, p: int) {
    exists q :: Takes(ty, ops, start, p, q) || Takes(ty, ops, start, q, p)
  }

  /** `keep` lists, in order, the operations that are no end of a merge. */
  ghost predicate KeepsTheRest(ty: MemRefTypes, ops: seq<Op>, start: int, keep: seq<nat>) {
    && (forall a :: 0 <= a < |keep| ==> keep[a] < |ops| && !Gone(ty, ops, start, keep[a]))
    && (forall a, b :: 0 <= a < b < |keep| ==> keep[a] < keep[b])
    && forall p: nat :: p < |ops| && !Gone(ty, ops, start, p) ==> p in keep
  }

  /** A merged alloc gets the name of the buffer it takes; every other value keeps its name. */
  ghost predicate NamesTaken(ty: MemRefTypes, ops: seq<Op>, start: int, name: Value -> Value) {
    && (forall d, j :: Takes(ty, ops, start, d, j) ==> name(ops[j].result) == name(ops[d].memref))
    && (forall u :: (forall d, j :: Takes(ty, ops, start, d, j) ==> ops[j].result != u) ==> name(u) == u)
    && forall u :: ty(name(u)) == ty(u)
  }

  function NamedAll(accesses: seq<Access>, name: Value -> Value): (r: seq<Access>)
    ensures |r| == |accesses|
    ensures forall k :: 0 <= k < |r| ==> r[k] == accesses[k].(value := name(accesses[k].value))
  {
    seq(|accesses|, k requires 0 <= k < |accesses| => accesses[k].(value := name(accesses[k].value)))
  }

  /** An operation with the values it mentions renamed. */
  function Named(op: Op, name: Value -> Value): Op {
    match op
    case Alloc(_, _) => op
    case Dealloc(m) => Dealloc(name(m))
    case Use(id, ins, outs) => Use(id, NamedAll(ins, name), NamedAll(outs, name))
  }

  ghost predicate DistinctResults(ops: seq<Op>) {
    forall i, j :: 0 <= i < j < |ops| && ops[i].Alloc? && ops[j].Alloc? ==> ops[i].result != ops[j].result
  }

  /** The position that an operation behind a merge had before it. */
  function Original(p: nat, i: nat, j: nat): nat {
    if p < i then p else if p + 1 < j then p + 1 else p + 2
  }

  lemma MergedAt(ops: seq<Op>, i: nat, j: nat, p: nat)
    requires i < j < |ops| && ops[i].Dealloc? && ops[j].Alloc? && p < |ops| - 2
    ensures Original(p, i, j) < |ops| && Original(p, i, j) != i && Original(p, i, j) != j
    ensures Merge(ops, i, j)[p] == Renamed(ops[Original(p, i, j)], ops[j].result, ops[i].memref)
  {
  }

  lemma NextAllocIs(ops: seq<Op>, d: nat, j: nat)
    requires d < j <= |ops| && NoAllocBetween(ops, d, j) && (j < |ops| ==> ops[j].Alloc?)
    ensures NextAlloc(ops, d + 1) == j
  {
  }

  /** Nothing is taken from a dealloc that cannot be merged with the next alloc. */
  lemma TakesSkip(ty: MemRefTypes, ops: seq<Op>, i: nat, next: nat, d: int, q: int)
    requires i < |ops| && next == i + 1 && !Mergeable(ty, ops, i, NextAlloc(ops, i + 1))
    ensures Takes(ty, ops, i, d, q) <==> Takes(ty, ops, next, d, q)
  {
    if 0 <= q && Mergeable(ty, ops, i, q) && NoAllocBetween(ops, i, q) {
      NextAllocIs(ops, i, q);
    }
  }

  /** What is taken besides the alloc `j` lies behind it. */
  lemma TakesSplit(ty: MemRefTypes, ops: seq<Op>, i: nat, j: nat, next: nat, d: int, q: int)
    requires Mergeable(ty, ops, i, j) && NoAllocBetween(ops, i, j) && next == j + 1
    ensures Takes(ty, ops, i, d, q) <==> (d == i && q == j) || Takes(ty, ops, next, d, q)
  {
    if Takes(ty, ops, next, d, q) {
      forall k | i <= k < d && Mergeable(ty, ops, k, q)
        ensures !NoAllocBetween(ops, k, q)
      {
        if k < next {
          assert k < j < q;
        }
      }
    }
  }

  lemma MergedMergeable(ty: MemRefTypes, ops: seq<Op>, i: nat, j: nat, d: nat, q: nat, d': nat, q': nat)
    requires Mergeable(ty, ops, i, j) && j <= d + 1 && j <= q + 1 && d' == d + 2 && q' == q + 2
    ensures Mergeable(ty, Merge(ops, i, j), d, q) <==> Mergeable(ty, ops, d', q')
  {
    if d < |ops| - 2 && q < |ops| - 2 {
      MergedAt(ops, i, j, d);
      MergedAt(ops, i, j, q);
    }
  }

  lemma MergedNoAlloc(ops: seq<Op>, i: nat, j: nat, d: nat, q: nat, d': nat, q': nat)
    requires i < j < |ops| && ops[i].Dealloc? && ops[j].Alloc?
    requires j <= d + 1 && q <= |ops| - 2 && d' == d + 2 && q' == q + 2
    ensures NoAllocBetween(Merge(ops, i, j), d, q) <==> NoAllocBetween(ops, d', q')
  {
    var merged := Merge(ops, i, j);
    forall k | d < k < q
      ensures merged[k].Alloc? <==> ops[k + 2].Alloc?
    {
      MergedAt(ops, i, j, k);
    }
    forall k | d' < k < q'
      ensures ops[k].Alloc? <==> merged[k - 2].Alloc?
    {
      MergedAt(ops, i, j, k - 2);
    }
  }

  lemma MergedTakes(ty: MemRefTypes, ops: seq<Op>, i: nat, j: nat, start: nat, d: int, q: int, next: nat, d': int,
                    q': int)
    requires Mergeable(ty, ops, i, j) && start + 1 == j && next == j + 1 && d' == d + 2 && q' == q + 2
    requires Takes(ty, Merge(ops, i, j), start, d, q) || Takes(ty, ops, next, d', q')
    ensures Takes(ty, Merge(ops, i, j), start, d, q) && Takes(ty, ops, next, d', q')
  {
    var merged := Merge(ops, i, j);
    MergedMergeable(ty, ops, i, j, d, q, d', q');
    MergedNoAlloc(ops, i, j, d, q, d', q');
    if Takes(ty, merged, start, d, q) {
      forall l | next <= l < d' && Mergeable(ty, ops, l, q')
        ensures !NoAllocBetween(ops, l, q')
      {
        var k := l - 2;
        MergedMergeable(ty, ops, i, j, k, q, l, q');
        MergedNoAlloc(ops, i, j, k, q, l, q');
      }
    } else {
      forall k | start <= k < d && Mergeable(ty, merged, k, q)
        ensures !NoAllocBetween(merged, k, q)
      {
        var l := k + 2;
        MergedMergeable(ty, ops, i, j, k, q, l, q');
        MergedNoAlloc(ops, i, j, k, q, l, q');
      }
    }
  }

  /** An operation behind a merge is gone if and only if it was to go anyway. */
  lemma MergedGone(ty: MemRefTypes, ops: seq<Op>, i: nat, j: nat, start: nat, p: nat, p': nat)
    requires Mergeable(ty, ops, i, j) && NoAllocBetween(ops, i, j) && start + 1 == j
    requires p < |ops| - 2 && p' == Original(p, i, j)
    ensures Gone(ty, Merge(ops, i, j), start, p) <==> Gone(ty, ops, i, p')
  {
    var next := j + 1;
    MergedAt(ops, i, j, p);
    if Gone(ty, Merge(ops, i, j), start, p) {
      var q :| Takes(ty, Merge(ops, i, j), start, p, q) || Takes(ty, Merge(ops, i, j), start, q, p);
      var q' := q + 2;
      if Takes(ty, Merge(ops, i, j), start, p, q) {
        MergedTakes(ty, ops, i, j, start, p, q, next, p', q');
        TakesSplit(ty, ops, i, j, next, p', q');
      } else {
        MergedTakes(ty, ops, i, j, start, q, p, next, q', p');
        TakesSplit(ty, ops, i, j, next, q', p');
      }
    } else if Gone(ty, ops, i, p') {
      var q' :| Takes(ty, ops, i, p', q') || Takes(ty, ops, i, q', p');
      var q := q' - 2;
      if Takes(ty, ops, i, p', q') {
        TakesSplit(ty, ops, i, j, next, p', q');
        MergedTakes(ty, ops, i, j, start, p, q, next, p', q');
      } else {
        TakesSplit(ty, ops, i, j, next, q', p');
        MergedTakes(ty, ops, i, j, start, q, p, next, q', p');
      }
      assert false;
    }
  }

  function Originals(keep: seq<nat>, i: nat, j: nat): (r: seq<nat>)
    ensures |r| == |keep| && forall a :: 0 <= a < |r| ==> r[a] == Original(keep[a], i, j)
  {
    seq(|keep|, a requires 0 <= a < |keep| => Original(keep[a], i, j))
  }

  lemma MergedKeeps(ty: MemRefTypes, ops: seq<Op>, i: nat, j: nat, start: nat, keep: seq<nat>)
    requires Mergeable(ty, ops, i, j) && NoAllocBetween(ops, i, j) && start + 1 == j
    requires KeepsTheRest(ty, Merge(ops, i, j), start, keep)
    ensures KeepsTheRest(ty, ops, i, Originals(keep, i, j))
  {
    var all := Originals(keep, i, j);
    var merged := Merge(ops, i, j);
    forall a | 0 <= a < |all|
      ensures all[a] < |ops| && !Gone(ty, ops, i, all[a])
    {
      MergedAt(ops, i, j, keep[a]);
      MergedGone(ty, ops, i, j, start, keep[a], all[a]);
    }
    forall p: nat | p < |ops| && !Gone(ty, ops, i, p)
      ensures p in all
    {
      TakesFirst(ty, ops, i, j);
      assert p != i && p != j;
      var q := if p < i then p else if p < j then p - 1 else p - 2;
      MergedGone(ty, ops, i, j, start, q, p);
      var a :| 0 <= a < |keep| && keep[a] == q;
      assert all[a] == p;
    }
  }

  lemma TakesFirst(ty: MemRefTypes, ops: seq<Op>, i: nat, j: nat)
    requires Mergeable(ty, ops, i, j) && NoAllocBetween(ops, i, j)
    ensures Takes(ty, ops, i, i, j) && Gone(ty, ops, i, i) && Gone(ty, ops, i, j)
  {
    assert Takes(ty, ops, i, i, j);
  }

  lemma SkippedKeeps(ty: MemRefTypes, ops: seq<Op>, i: nat, next: nat, keep: seq<nat>)
    requires i < |ops| && next == i + 1 && !Mergeable(ty, ops, i, NextAlloc(ops, i + 1))
    requires KeepsTheRest(ty, ops, next, keep)
    ensures KeepsTheRest(ty, ops, i, keep)
  {
    forall p
      ensures Gone(ty, ops, i, p) <==> Gone(ty, ops, next, p)
    {
      forall q
        ensures Takes(ty, ops, i, p, q) <==> Takes(ty, ops, next, p, q)
        ensures Takes(ty, ops, i, q, p) <==> Takes(ty, ops, next, q, p)
      {
        TakesSkip(ty, ops, i, next, p, q);
        TakesSkip(ty, ops, i, next, q, p);
      }
    }
  }

  lemma SkippedNames(ty: MemRefTypes, ops: seq<Op>, i: nat, next: nat, name: Value -> Value)
    requires i < |ops| && next == i + 1 && !Mergeable(ty, ops, i, NextAlloc(ops, i + 1))
    requires NamesTaken(ty, ops, next, name)
    ensures NamesTaken(ty, ops, i, name)
  {
    forall d, q
      ensures Takes(ty, ops, i, d, q) <==> Takes(ty, ops, next, d, q)
    {
      TakesSkip(ty, ops, i, next, d, q);
    }
  }

  function Composed(name: Value -> Value, w: Value, v: Value): Value -> Value {
    u => name(if u == w then v else u)
  }

  lemma NamedRenamed(op: Op, name: Value -> Value, w: Value, v: Value)
    ensures Named(Renamed(op, w, v), name) == Named(op, Composed(name, w, v))
  {
    var both := Composed(name, w, v);
    match op {
      case Alloc(_, _) =>
      case Dealloc(_) =>
      case Use(_, ins, outs) =>
        assert NamedAll(RenamedAll(ins, w, v), name) == NamedAll(ins, both);
        assert NamedAll(RenamedAll(outs, w, v), name) == NamedAll(outs, both);
    }
  }

  /** A pair that a later merge joins, before and after this merge. */
  lemma LaterPair(ty: MemRefTypes, ops: seq<Op>, i: nat, j: nat, start: nat, d: nat, q: nat) returns (d': nat, q': nat)
    requires Mergeable(ty, ops, i, j) && NoAllocBetween(ops, i, j) && start + 1 == j
    requires Takes(ty, ops, i, d, q) && (d != i || q != j)
    ensures Takes(ty, Merge(ops, i, j), start, d', q') && j < q
    ensures Merge(ops, i, j)[d'] == Renamed(ops[d], ops[j].result, ops[i].memref)
    ensures Merge(ops, i, j)[q'].result == ops[q].result
  {
    var next := j + 1;
    TakesSplit(ty, ops, i, j, next, d, q);
    d', q' := d - 2, q - 2;
    MergedTakes(ty, ops, i, j, start, d', q', next, d, q);
    MergedAt(ops, i, j, d');
    MergedAt(ops, i, j, q');
  }

  /** The names of such a pair agree after all merges. */
  lemma LaterNames(ty: MemRefTypes, ops: seq<Op>, i: nat, j: nat, start: nat, name: Value -> Value, d: nat, q: nat)
    requires Mergeable(ty, ops, i, j) && NoAllocBetween(ops, i, j) && start + 1 == j && DistinctResults(ops)
    requires NamesTaken(ty, Merge(ops, i, j), start, name)
    requires Takes(ty, ops, i, d, q) && (d != i || q != j)
    ensures name(ops[q].result) == name(if ops[d].memref == ops[j].result then ops[i].memref else ops[d].memref)
    ensures ops[q].result != ops[j].result
  {
    var d', q' := LaterPair(ty, ops, i, j, start, d, q);
    TakenNames(ty, Merge(ops, i, j), start, name, d', q');
  }

  lemma TakenNames(ty: MemRefTypes, ops: seq<Op>, start: int, name: Value -> Value, d: nat, j: nat)
    requires NamesTaken(ty, ops, start, name) && Takes(ty, ops, start, d, j)
    ensures name(ops[j].result) == name(ops[d].memref)
  {
  }

  lemma LaterOthers(ty: MemRefTypes, ops: seq<Op>, i: nat, j: nat, start: nat, d: int, q: int)
    requires Mergeable(ty, ops, i, j) && NoAllocBetween(ops, i, j) && start + 1 == j
    requires Takes(ty, Merge(ops, i, j), start, d, q)
    ensures exists d', q' :: Takes(ty, ops, i, d', q') && ops[q'].result == Merge(ops, i, j)[q].result
  {
    var next, d', q' := j + 1, d + 2, q + 2;
    MergedTakes(ty, ops, i, j, start, d, q, next, d', q');
    TakesSplit(ty, ops, i, j, next, d', q');
    MergedAt(ops, i, j, q);
  }

  lemma MergedNames(ty: MemRefTypes, ops: seq<Op>, i: nat, j: nat, start: nat, name: Value -> Value,
                    both: Value -> Value)
    requires Mergeable(ty, ops, i, j) && NoAllocBetween(ops, i, j) && start + 1 == j && DistinctResults(ops)
    requires NamesTaken(ty, Merge(ops, i, j), start, name)
    requires both == Composed(name, ops[j].result, ops[i].memref)
    ensures NamesTaken(ty, ops, i, both)
  {
    TakesFirst(ty, ops, i, j);
    forall d, q | Takes(ty, ops, i, d, q)
      ensures both(ops[q].result) == both(ops[d].memref)
    {
      if d != i || q != j {
        LaterNames(ty, ops, i, j, start, name, d, q);
      }
    }
    forall u | forall d, q :: Takes(ty, ops, i, d, q) ==> ops[q].result != u
      ensures both(u) == u
    {
      forall d, q | Takes(ty, Merge(ops, i, j), start, d, q)
        ensures Merge(ops, i, j)[q].result != u
      {
        LaterOthers(ty, ops, i, j, start, d, q);
      }
    }
  }

  lemma MergedDistinct(ops: seq<Op>, i: nat, j: nat)
    requires i < j < |ops| && ops[i].Dealloc? && ops[j].Alloc? && DistinctResults(ops)
    ensures DistinctResults(Merge(ops, i, j))
  {
    forall p, q | 0 <= p < q < |ops| - 2
      ensures Original(p, i, j) < Original(q, i, j)
    {
    }
  }

  /** The operations left, renamed: exactly the ends of the merges are missing. */
  ghost predicate IsReused(ty: MemRefTypes, ops: seq<Op>, start: nat, r: seq<Op>, keep: seq<nat>, name: Value -> Value)
  {
    && KeepsTheRest(ty, ops, start, keep) && NamesTaken(ty, ops, start, name)
    && |r| == |keep| && forall a :: 0 <= a < |r| ==> r[a] == Named(ops[keep[a]], name)
  }

  lemma MergedIsReused(ty: MemRefTypes, ops: seq<Op>, i: nat, j: nat, start: nat, r: seq<Op>, keep: seq<nat>,
                       name: Value -> Value)
    requires Mergeable(ty, ops, i, j) && NoAllocBetween(ops, i, j) && start + 1 == j && DistinctResults(ops)
    requires IsReused(ty, Merge(ops, i, j), start, r, keep, name)
    ensures IsReused(ty, ops, i, r, Originals(keep, i, j), Composed(name, ops[j].result, ops[i].memref))
  {
    MergedKeeps(ty, ops, i, j, start, keep);
    MergedNames(ty, ops, i, j, start, name, Composed(name, ops[j].result, ops[i].memref));
    forall a | 0 <= a < |r|
      ensures r[a] == Named(ops[Original(keep[a], i, j)], Composed(name, ops[j].result, ops[i].memref))
    {
      MergedAt(ops, i, j, keep[a]);
      NamedRenamed(ops[Original(keep[a], i, j)], name, ops[j].result, ops[i].memref);
    }
  }

  lemma NothingLeft(ty: MemRefTypes, ops: seq<Op>, keep: seq<nat>, name: Value -> Value)
    requires |keep| == |ops| && (forall a :: 0 <= a < |ops| ==> keep[a] == a) && forall u :: name(u) == u
    ensures IsReused(ty, ops, |ops|, ops, keep, name)
  {
    forall p: nat | p < |ops|
      ensures p in keep
    {
      assert keep[p] == p;
    }
    forall a | 0 <= a < |ops|
      ensures ops[a] == Named(ops[keep[a]], name)
    {
      match ops[a] {
        case Alloc(_, _) =>
        case Dealloc(_) =>
        case Use(_, ins, outs) => assert NamedAll(ins, name) == ins && NamedAll(outs, name) == outs;
      }
    }
  }

  lemma SkippedIsReused(ty: MemRefTypes, ops: seq<Op>, i: nat, next: nat, r: seq<Op>, keep: seq<nat>,
                        name: Value -> Value)
    requires i < |ops| && next == i + 1 && !MergesNext(ty, ops, i) && IsReused(ty, ops, next, r, keep, name)
    ensures IsReused(ty, ops, i, r, keep, name)
  {
    SkippedKeeps(ty, ops, i, next, keep);
    SkippedNames(ty, ops, i, next, name);
  }

  lemma MergeStep(ty: MemRefTypes, ops: seq<Op>, i: nat) returns (j: nat)
    requires i < |ops| && MergesNext(ty, ops, i) && DistinctResults(ops)
    ensures Mergeable(ty, ops, i, j) && NoAllocBetween(ops, i, j)
    ensures Step(ty, ops, i) == Cursor(Merge(ops, i, j), j - 1) && DistinctResults(Merge(ops, i, j))
  {
    j := NextAlloc(ops, i + 1);
    MergedDistinct(ops, i, j);
  }

  /** The pass keeps exactly the operations that are no end of a merge: from `start` on, every static alloc takes the
      buffer of the first dealloc of its type behind the alloc in front of it. */
  lemma {:induction false} ReuseExactly(ty: MemRefTypes, ops: seq<Op>, start: nat)
    returns (keep: seq<nat>, name: Value -> Value)
    requires start <= |ops| && DistinctResults(ops)
    ensures IsReused(ty, ops, start, Reused(ty, ops, start), keep, name)
    decreases |ops| - start
  {
    if start == |ops| {
      keep, name := seq(|ops|, a => a), u => u;
      NothingLeft(ty, ops, keep, name);
    } else {
      var c := Step(ty, ops, start);
      if MergesNext(ty, ops, start) {
        var j := MergeStep(ty, ops, start);
        var later, laterName := ReuseExactly(ty, c.ops, c.i);
        MergedIsReused(ty, ops, start, j, c.i, Reused(ty, c.ops, c.i), later, laterName);
        keep, name := Originals(later, start, j), Composed(laterName, ops[j].result, ops[start].memref);
      } else {
        keep, name := ReuseExactly(ty, c.ops, c.i);
        SkippedIsReused(ty, ops, start, c.i, Reused(ty, c.ops, c.i), keep, name);
      }
    }
  }

  // ---------------------------------------------------------------- what is left to merge

  /** A dealloc and a static alloc of its type that are both kept, while every alloc between them goes. */
  ghost predicate LeftOver(ty: MemRefTypes, ops: seq<Op>, d: nat, j: nat) {
    && Mergeable(ty, ops, d, j) && !Gone(ty, ops, 0, d) && !Gone(ty, ops, 0, j)
    && forall k :: d < k < j && ops[k].Alloc? ==> Gone(ty, ops, 0, k)
  }

  lemma KeptMergeable(ty: MemRefTypes, ops: seq<Op>, r: seq<Op>, keep: seq<nat>, name: Value -> Value, a: nat, b: nat)
    requires IsReused(ty, ops, 0, r, keep, name) && a < |r| && b < |r|
    ensures Mergeable(ty, r, a, b) <==> Mergeable(ty, ops, keep[a], keep[b])
  {
    assert r[a] == Named(ops[keep[a]], name) && r[b] == Named(ops[keep[b]], name);
    assert a < b <==> keep[a] < keep[b];
  }

  lemma KeptBetween(ty: MemRefTypes, ops: seq<Op>, r: seq<Op>, keep: seq<nat>, name: Value -> Value, a: nat, b: nat)
    requires IsReused(ty, ops, 0, r, keep, name) && a < b < |r|
    ensures NoAllocBetween(r, a, b) <==> forall k :: keep[a] < k < keep[b] && ops[k].Alloc? ==> Gone(ty, ops, 0, k)
  {
    if NoAllocBetween(r, a, b) {
      forall k | keep[a] < k < keep[b] && ops[k].Alloc?
        ensures Gone(ty, ops, 0, k)
      {
        forall c | 0 <= c < |keep|
          ensures keep[c] != k
        {
          assert r[c] == Named(ops[keep[c]], name);
        }
      }
    } else {
      var c :| a < c < b && r[c].Alloc?;
      assert r[c] == Named(ops[keep[c]], name);
    }
  }

  lemma MergeWasLeft(ty: MemRefTypes, ops: seq<Op>, r: seq<Op>, keep: seq<nat>, name: Value -> Value, a: nat)
    requires IsReused(ty, ops, 0, r, keep, name) && a < |r| && MergesNext(ty, r, a)
    ensures exists d, j :: LeftOver(ty, ops, d, j)
  {
    var b := NextAlloc(r, a + 1);
    KeptMergeable(ty, ops, r, keep, name, a, b);
    KeptBetween(ty, ops, r, keep, name, a, b);
    assert LeftOver(ty, ops, keep[a], keep[b]);
  }

  lemma LeftCanMerge(ty: MemRefTypes, ops: seq<Op>, r: seq<Op>, keep: seq<nat>, name: Value -> Value, d: nat, j: nat)
    requires IsReused(ty, ops, 0, r, keep, name) && LeftOver(ty, ops, d, j)
    ensures SomeMerge(ty, r, 0)
  {
    var a :| 0 <= a < |keep| && keep[a] == d;
    var b :| 0 <= b < |keep| && keep[b] == j;
    KeptMergeable(ty, ops, r, keep, name, a, b);
    KeptBetween(ty, ops, r, keep, name, a, b);
    NextAllocIs(r, a, b);
    assert MergesNext(ty, r, a);
  }

  /** A dealloc of the result can still be merged with the next alloc if and only if a pair was left over. */
  lemma LeftOverExactly(ty: MemRefTypes, ops: seq<Op>)
    requires DistinctResults(ops)
    ensures SomeMerge(ty, Reused(ty, ops, 0), 0) <==> exists d, j :: LeftOver(ty, ops, d, j)
  {
    var r := Reused(ty, ops, 0);
    var keep, name := ReuseExactly(ty, ops, 0);
    if a :| 0 <= a < |r| && MergesNext(ty, r, a) {
      MergeWasLeft(ty, ops, r, keep, name, a);
    }
    if d, j :| LeftOver(ty, ops, d, j) {
      LeftCanMerge(ty, ops, r, keep, name, d, j);
    }
  }

  /** If any dealloc can be merged with the next alloc, the first of them is. */
  lemma {:induction false} FirstTakes(ty: MemRefTypes, ops: seq<Op>, d: nat, j: nat)
    requires Mergeable(ty, ops, d, j) && NoAllocBetween(ops, d, j)
    ensures exists k :: 0 <= k <= d && Takes(ty, ops, 0, k, j)
    decreases d
  {
    if !Takes(ty, ops, 0, d, j) {
      var k :| 0 <= k < d && Mergeable(ty, ops, k, j) && NoAllocBetween(ops, k, j);
      FirstTakes(ty, ops, k, j);
    }
  }

  /** A dealloc is left over only if another one in front of the same alloc takes that alloc. */
  lemma LeftOverLost(ty: MemRefTypes, ops: seq<Op>, d: nat, j: nat) returns (n: nat, other: nat)
    requires LeftOver(ty, ops, d, j)
    ensures n < j && other != d && Takes(ty, ops, 0, other, n) && d < n && NoAllocBetween(ops, d, n)
  {
    n := NextAlloc(ops, d + 1);
    if n >= j {
      FirstTakes(ty, ops, d, j);
      assert false;
    }
    assert Gone(ty, ops, 0, n);
    var q :| Takes(ty, ops, 0, n, q) || Takes(ty, ops, 0, q, n);
    other := q;
  }

  /** Between two allocs stands at most one dealloc. */
  predicate SingleDeallocs(ops: seq<Op>) {
    forall i, k :: 0 <= i < k < |ops| && ops[i].Dealloc? && ops[k].Dealloc? ==> !NoAllocBetween(ops, i, k)
  }

  /** Then no merge is left to do. */
  lemma SingleDeallocsLeaveNothing(ty: MemRefTypes, ops: seq<Op>)
    requires DistinctResults(ops) && SingleDeallocs(ops)
    ensures !SomeMerge(ty, Reused(ty, ops, 0), 0)
  {
    LeftOverExactly(ty, ops);
    forall d, j
      ensures !LeftOver(ty, ops, d, j)
    {
      if LeftOver(ty, ops, d, j) {
        var n, other := LeftOverLost(ty, ops, d, j);
        var first, second := if d < other then d else other, if d < other then other else d;
        assert NoAllocBetween(ops, first, second);
        assert false;
      }
    }
  }

  /** Two deallocs in front of two allocs of their types in the opposite order: the second dealloc takes the first
      alloc, and a pair that could be merged is left. */
  lemma MergeCanBeMissed(ty: MemRefTypes)
    requires ty(0) == ty(3) && ty(1) == ty(2) && ty(0) != ty(1)
    ensures
      var ops := [Dealloc(0), Dealloc(1), Alloc(2, false), Alloc(3, false)];
      var r := Reused(ty, ops, 0);
      r == [Dealloc(0), Alloc(3, false)] && MergesNext(ty, r, 0)
  {
    var ops := [Dealloc(0), Dealloc(1), Alloc(2, false), Alloc(3, false)];
    var r := [Dealloc(0), Alloc(3, false)];
    NextAllocIs(ops, 0, 2);
    NextAllocIs(ops, 1, 2);
    NextAllocIs(r, 0, 1);
    assert Merge(ops, 1, 2) == r;
    assert !MergesNext(ty, ops, 0) && MergesNext(ty, ops, 1);
    assert Step(ty, ops, 0) == Cursor(ops, 1) && Step(ty, ops, 1) == Cursor(r, 1);
    assert Step(ty, r, 1) == Cursor(r, 2);
  }
}
