/** What a client sees of its blocks over a run of calls and of its own writes. */
module HeapTraces {
  import opened Machine
  import opened HeapSpec
  import opened HeapOps
  import opened HeapAccounts
  import opened FlatMemory
  import opened HeapRuns
  import opened HeapShape
  import Heap

  /** A call of the allocator, or a client's write of one byte of its blocks. */
  datatype Step = Call(op: Op) | Write(at: nat, value: byte)

  datatype Moment = Moment(heap: State, memory: Memory)

  /** What a call does to heap and memory, and what a write does; Perform below makes such a step. */
  ghost predicate Follows(x: Moment, step: Step, y: Moment) {
    && Inv(x.heap)
    && match step
       case Call(op) =>
         && Legal(x.heap, op) && y.heap == Apply(Ledger(x.heap, 0), op).heap
         && Preserved(x.heap, x.memory, y.heap, y.memory)
       case Write(a, v) =>
         && (exists c :: InBlock(x.heap, c, a))
         && a < |x.memory| && y == Moment(x.heap, x.memory[a := v])
  }

  ghost predicate Trace(ms: seq<Moment>, steps: seq<Step>) {
    |ms| == |steps| + 1 && forall i :: 0 <= i < |steps| ==> Follows(ms[i], steps[i], ms[i + 1])
  }

  /** The call is given the block at p, to free or to resize. */
  predicate GivesUp(step: Step, p: nat) {
    match step
    case Call(Kfree(q)) => q == p
    case Call(Krealloc(q, _)) => q == p
    case _ => false
  }

  /** The last value written to byte b, or v when there is none. */
  function LastWritten(steps: seq<Step>, b: nat, v: byte): byte {
    if steps == [] then v
    else LastWritten(steps[1..], b, if steps[0].Write? && steps[0].at == b then steps[0].value else v)
  }

  lemma MallocKeepsBlock(h: State, request: u64, c: Chunk)
    requires Inv(h) && LiveBlock(h, c)
    ensures Inv(Malloc(h, request).0) && LiveBlock(Malloc(h, request).0, c)
  {
    hide Inv, Malloc, LiveBlock;
    var b := MallocAddsOneBlock(h, request);
  }

  lemma FreeKeepsBlock(h: State, p: nat, c: Chunk)
    requires Inv(h) && Live(h, p) && LiveBlock(h, c) && c.Payload() != p
    ensures LiveBlock(Free(h, p), c)
  {
    hide Inv, Free, LiveBlock;
    FreeRemovesOneBlock(h, p);
  }

  /** A block that is not given up stays live. */
  lemma CallKeepsBlock(h: State, op: Op, c: Chunk)
    requires Inv(h) && Legal(h, op) && LiveBlock(h, c) && !GivesUp(Call(op), c.Payload())
    ensures LiveBlock(Apply(Ledger(h, 0), op).heap, c)
  {
    hide Inv, Malloc, Free, LiveBlock, Live, Capacity;
    match op
    case Kmalloc(size) => MallocKeepsBlock(h, size, c);
    case Kfree(p) => FreeKeepsBlock(h, p, c);
    case Krealloc(p, size) =>
      if size == 0 {
        FreeKeepsBlock(h, p, c);
      } else if p == 0 {
        MallocKeepsBlock(h, size, c);
      } else if size > Capacity(h, p) {
        MallocKeepsBlock(h, size, c);
        MallocKeepsLive(h, size, p);
        if Malloc(h, size).1 != 0 { FreeKeepsBlock(Malloc(h, size).0, p, c); }
      }
  }

  /** Over any run, a block that is not given up stays, and each of its bytes holds what was last written to it. */
  lemma {:induction false} BytesAreTheClients(ms: seq<Moment>, steps: seq<Step>, c: Chunk, b: nat)
    requires Trace(ms, steps) && LiveBlock(ms[0].heap, c) && InBlock(ms[0].heap, c, b) && b < |ms[0].memory|
    requires forall i :: 0 <= i < |steps| ==> !GivesUp(steps[i], c.Payload())
    ensures var last := ms[|steps|];
            && LiveBlock(last.heap, c) && b < |last.memory|
            && last.memory[b] == LastWritten(steps, b, ms[0].memory[b])
    decreases |steps|
  {
    hide LiveBlock, Apply, Legal, Inv;
    if steps != [] {
      assert Follows(ms[0], steps[0], ms[1]);
      StepKeepsByte(ms[0], steps[0], ms[1], c, b);
      var rest, more := ms[1..], steps[1..];
      forall i | 0 <= i < |more|
        ensures Follows(rest[i], more[i], rest[i + 1]) && !GivesUp(more[i], c.Payload())
      {
        assert more[i] == steps[i + 1] && rest[i] == ms[i + 1] && rest[i + 1] == ms[i + 2];
        assert Follows(ms[i + 1], steps[i + 1], ms[i + 2]);
      }
      BytesAreTheClients(rest, more, c, b);
    }
  }

  lemma StepKeepsByte(x: Moment, step: Step, y: Moment, c: Chunk, b: nat)
    requires Follows(x, step, y) && LiveBlock(x.heap, c) && InBlock(x.heap, c, b) && b < |x.memory|
    requires !GivesUp(step, c.Payload())
    ensures LiveBlock(y.heap, c) && InBlock(y.heap, c, b) && b < |y.memory|
    ensures y.memory[b] == if step.Write? && step.at == b then step.value else x.memory[b]
  {
    hide Inv, Apply, Legal;
    if step.Call? { CallKeepsBlock(x.heap, step.op, c); }
  }

  // ---- the heap makes these steps ----

  /** What a client must respect: legal calls, moves whose copy fits, and writes to its own blocks. */
  ghost predicate Allowed(h: State, step: Step)
    requires Inv(h)
  {
    match step
    case Call(op) => Legal(h, op) && (op.Krealloc? ==> MoveFits(h, op.p, op.size))
    case Write(a, _) => exists c :: InBlock(h, c, a)
  }

  /** Any allowed step, made on the heap in memory. */
  method Perform(heap: Heap.Heap, step: Step) returns (ptr: nat)
    requires heap.Valid() && Allowed(heap.state, step)
    modifies heap, heap.arena, heap.arena.freeChunk
    ensures heap.Valid()
    ensures Follows(Moment(old(heap.state), old(heap.arena.mem)), step, Moment(heap.state, heap.arena.mem))
  {
    hide Inv, InBlock, Preserved, MoveFits;
    ptr := 0;
    match step
    case Call(Kmalloc(size)) => ptr := heap.Kmalloc(size);
    case Call(Kfree(p)) => heap.Kfree(p);
    case Call(Krealloc(p, size)) => ptr := heap.Krealloc(p, size);
    case Write(a, v) =>
      ghost var c :| InBlock(heap.state, c, a);
      heap.WritePayload(a, v, c);
  }

  /** A kcalloc is a kmalloc of the product, as far as the other blocks are concerned. */
  method PerformCalloc(heap: Heap.Heap, nmemb: u64, size: u64) returns (ptr: nat)
    requires heap.Valid()
    requires Malloc(heap.state, Wrap(nmemb * size)).1 != 0 ==> Wrap(nmemb * size) <= TWO_64 - ALIGN
    modifies heap, heap.arena, heap.arena.freeChunk
    ensures heap.Valid()
    ensures Follows(Moment(old(heap.state), old(heap.arena.mem)), Call(Kmalloc(Wrap(nmemb * size))),
                    Moment(heap.state, heap.arena.mem))
  {
    hide Inv, InBlock, Preserved, Malloc, Wrap;
    ptr := heap.Kcalloc(nmemb, size);
  }
}
