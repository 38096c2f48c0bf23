/** Whole runs of B-tree operations on a pool of any capacity from three pages on. */
module BTreeRuns {
  import opened Bytes
  import opened NodePage
  import opened Cells
  import opened Tree
  import opened Index
  import opened BufferPool
  import opened Storage
  import opened BTree

  lemma {:induction false} PrefixAllowed(base: nat, ops: seq<Op>, i: nat)
    requires RunAllowed(base, ops) && i <= |ops|
    ensures RunAllowed(base, ops[..i])
    decreases |ops|
  {
    hide Allowed, Run;
    if i == |ops| {
      assert ops[..i] == ops;
    } else {
      var before := ops[..|ops| - 1];
      PrefixAllowed(base, before, i);
      assert before[..i] == ops[..i];
    }
  }

  lemma NextAllowed(base: nat, ops: seq<Op>, i: nat)
    requires RunAllowed(base, ops) && i < |ops|
    ensures Allowed(Run(base, ops[..i]).0, ops[i])
    ensures var (t, n) := Run(base, ops[..i]); Run(base, ops[..i + 1]) == Step(t, n, ops[i])
  {
    hide Allowed, Step;
    PrefixAllowed(base, ops, i + 1);
    assert ops[..i + 1][..i] == ops[..i] && ops[..i + 1][i] == ops[i];
  }

  /** A file whose tree pages are 0 and those from 1 on, each in the tree. */
  ghost predicate Dense(bt: BTree)
    reads bt, bt.pool, bt.pool.Repr, bt.pool.watch
  {
    bt.Valid() && 1 <= bt.pool.nextPageId && Count(bt.tree) == bt.pool.nextPageId
  }

  lemma RoomToAllocate(t: Tree, h: nat, next: nat)
    requires IsIndex(t, h) && Count(t) == next
    ensures next + h + 2 <= TWO_32
  {
    hide IsIndex, Power, CellsOf, Count;
    HeightBound(t, h);
    SizeBound(t, h);
  }

  lemma StepCount(t: Tree, h: nat, next: nat, op: Op)
    requires IsIndex(t, h) && PagesBelow(t, next) && op.key < TWO_32
    ensures var (u, n) := Step(t, next, op); next <= n && Count(u) == Count(t) + (n - next)
  {
    hide EditTree, IsIndex;
    EditTreeKeeps(t, op.key, if op.Insert? then op.val else TOMBSTONE, next, h);
  }

  // ---------------------------------------------------------------- runs of calls

  /** What a caller can ask of the tree. */
  datatype Call = Change(op: Op) | Ask(key: nat)

  datatype Answer = Stored | Removed(ok: bool) | Found(value: int)

  /** The changes among the calls, in order. */
  function Changes(calls: seq<Call>): (ops: seq<Op>)
    decreases |calls|
  {
    if calls == [] then []
    else
      var before := Changes(calls[..|calls| - 1]);
      match calls[|calls| - 1]
      case Change(op) => before + [op]
      case Ask(_) => before
  }

  /** The changes are allowed, each where it comes, and questions are about 32-bit keys. */
  ghost predicate CallsAllowed(calls: seq<Call>) {
    RunAllowed(1, Changes(calls)) && forall i | 0 <= i < |calls| && calls[i].Ask? :: calls[i].key < TWO_32
  }

  /** What a finite map `m` answers. */
  function Reply(m: map<nat, nat>, call: Call): Answer {
    match call
    case Change(Insert(_, _)) => Stored
    case Change(Remove(k)) => Removed(k in m)
    case Ask(k) => Found(if k in m then m[k] else -1)
  }

  lemma {:induction false} ChangesPrefix(calls: seq<Call>, i: nat)
    requires i <= |calls|
    ensures |Changes(calls[..i])| <= |Changes(calls)|
    ensures Changes(calls)[..|Changes(calls[..i])|] == Changes(calls[..i])
    decreases |calls|
  {
    if i == |calls| {
      assert calls[..i] == calls;
    } else {
      var before := calls[..|calls| - 1];
      ChangesPrefix(before, i);
      assert before[..i] == calls[..i];
    }
  }

  /** Where the run stands after the first `i` calls, and what the next one may rely on. */
  lemma NextCall(calls: seq<Call>, i: nat)
    requires CallsAllowed(calls) && i < |calls|
    ensures var ops := Changes(calls[..i]);
            var (t, n) := Run(1, ops);
            && Implements(t, RunModel(ops))
            && match calls[i]
               case Change(op) => Allowed(t, op) && Run(1, Changes(calls[..i + 1])) == Step(t, n, op)
               case Ask(k) => k < TWO_32 && Changes(calls[..i + 1]) == ops
  {
    hide Allowed, Step, Implements, IsIndex, RunModel;
    var all, ops := Changes(calls), Changes(calls[..i]);
    ChangesPrefix(calls, i);
    PrefixAllowed(1, all, |ops|);
    var h := RunImplements(1, ops);
    assert calls[..i + 1][..i] == calls[..i];
    if calls[i].Change? {
      ChangesPrefix(calls, i + 1);
      assert all[..|ops| + 1] == Changes(calls[..i + 1]) == ops + [calls[i].op];
      NextAllowed(1, all, |ops|);
    }
  }

  lemma ReplyFromTree(t: Tree, m: map<nat, nat>, k: nat)
    requires Implements(t, m)
    ensures Live(t, k) <==> k in m
    ensures k in m ==> Lookup(CellsOf(t), k) == Some(m[k]) && m[k] < TWO_31
    ensures k !in m ==> Lookup(CellsOf(t), k).None? || Lookup(CellsOf(t), k) == Some(TOMBSTONE)
  {
  }

  /** One change. */
  method Apply(bt: BTree, op: Op) returns (a: Answer)
    requires Dense(bt) && Allowed(bt.tree, op)
    modifies bt, bt.pool.Repr
    ensures Dense(bt) && fresh(bt.pool.Repr - old(bt.pool.Repr))
    ensures (bt.tree, bt.pool.nextPageId) == Step(old(bt.tree), old(bt.pool.nextPageId), op)
    ensures a == if op.Insert? then Stored else Removed(Live(old(bt.tree), op.key))
  {
    hide BufferPool.Shape, BufferPool.View, BufferPool.Contents, BufferPool.Kept, IsIndex, Storage.Stored, EditTree,
      HasRoom, Lookup, PagesBelow, SameBut, Live;
    RoomToAllocate(bt.tree, bt.height, bt.pool.nextPageId);
    StepCount(bt.tree, bt.height, bt.pool.nextPageId, op);
    match op
    case Insert(k, v) =>
      bt.Insert(k, v);
      a := Stored;
    case Remove(k) =>
      var removed := bt.Remove(k);
      a := Removed(removed);
  }

  /** One call, answered as the map `m` that the tree implements answers it. */
  method Answered(bt: BTree, call: Call, ghost m: map<nat, nat>) returns (a: Answer)
    requires Dense(bt) && Implements(bt.tree, m)
    requires match call case Change(op) => Allowed(bt.tree, op) case Ask(k) => k < TWO_32
    modifies bt, bt.pool.Repr
    ensures Dense(bt) && fresh(bt.pool.Repr - old(bt.pool.Repr)) && a == Reply(m, call)
    ensures call.Change? ==> (bt.tree, bt.pool.nextPageId) == Step(old(bt.tree), old(bt.pool.nextPageId), call.op)
    ensures call.Ask? ==> (bt.tree, bt.pool.nextPageId) == old((bt.tree, bt.pool.nextPageId))
  {
    hide BufferPool.Shape, BufferPool.View, BufferPool.Contents, BufferPool.Kept, Allowed, Step, Implements, IsIndex,
      Storage.Stored, Lookup, Live, CellsOf;
    ReplyFromTree(bt.tree, m, if call.Ask? then call.key else call.op.key);
    match call
    case Change(op) => a := Apply(bt, op);
    case Ask(k) =>
      var value := bt.Find(k);
      a := Found(value);
  }

  /**
   * Any run of allowed calls on a new file leaves the tree, and hands out the pages, that its changes prescribe,
   * whatever the capacity of the pool; every call, finds included, is answered as the map would at that point.
   */
  method Replay(bt: BTree, calls: seq<Call>) returns (answers: seq<Answer>)
    requires bt.Valid() && bt.tree == Leaf(0, [], INVALID_PAGE_ID) && bt.pool.nextPageId == 1 && CallsAllowed(calls)
    modifies bt, bt.pool.Repr
    ensures bt.Valid() && fresh(bt.pool.Repr - old(bt.pool.Repr))
    ensures (bt.tree, bt.pool.nextPageId) == Run(1, Changes(calls))
    ensures |answers| == |calls|
    ensures forall i | 0 <= i < |calls| :: answers[i] == Reply(RunModel(Changes(calls[..i])), calls[i])
  {
    hide BufferPool.Shape, BufferPool.View, BufferPool.Contents, BufferPool.Kept, CallsAllowed, Allowed, Step, RunModel,
      BTree.Valid, Implements, Reply;
    answers := [];
    for i := 0 to |calls|
      invariant Dense(bt) && fresh(bt.pool.Repr - old(bt.pool.Repr)) && |answers| == i
      invariant (bt.tree, bt.pool.nextPageId) == Run(1, Changes(calls[..i]))
      invariant forall j | 0 <= j < i :: answers[j] == Reply(RunModel(Changes(calls[..j])), calls[j])
    {
      NextCall(calls, i);
      var a := Answered(bt, calls[i], RunModel(Changes(calls[..i])));
      answers := answers + [a];
    }
    assert calls[..|calls|] == calls;
  }

  /** Two pools of different capacities cannot be told apart. */
  method ReplayTwice(a: BTree, b: BTree, calls: seq<Call>) returns (fromA: seq<Answer>, fromB: seq<Answer>)
    requires a.Valid() && a.tree == Leaf(0, [], INVALID_PAGE_ID) && a.pool.nextPageId == 1
    requires b.Valid() && b.tree == Leaf(0, [], INVALID_PAGE_ID) && b.pool.nextPageId == 1
    requires ({a, a.pool, a.pool.watch} + a.pool.Repr) !! ({b, b.pool, b.pool.watch} + b.pool.Repr)
    requires CallsAllowed(calls)
    modifies a, a.pool.Repr, b, b.pool.Repr
    ensures a.Valid() && b.Valid() && fromA == fromB && a.tree == b.tree && a.pool.nextPageId == b.pool.nextPageId
  {
    hide BufferPool.Shape, BufferPool.View, BufferPool.Contents, BufferPool.Kept, CallsAllowed, Run, RunModel, IsIndex,
      Storage.Stored, Reply, Changes;
    fromA := Replay(a, calls);
    fromB := Replay(b, calls);
    assert fromA == fromB;
  }
}
