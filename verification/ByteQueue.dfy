/** The growable byte buffer (core/byte_buffer.hpp): a queue of bytes whose reallocations copy little. */
module ByteQueue {
  import opened Numbers

  /**
    A buffer and its past: the bytes put in and those taken out so far, in order, the bytes its
    reallocations copied, and the largest capacity asked for. The code keeps the first two fields only.
    */
  datatype Buffer = Buffer(
    contents: seq<bv8>, capacity: nat, put: seq<bv8>, taken: seq<bv8>, copied: nat, requested: nat)

  const EMPTY_BUFFER: Buffer := Buffer([], 0, [], [], 0, 0)

  datatype Op = Append(bytes: seq<bv8>) | Reserve(capacity: nat) | ShiftPrefix(n: nat) | Clear

  /** The capacity reserve allocates. */
  function Grown(capacity: nat, wanted: nat): nat {
    Max(if capacity == 0 then 64 else capacity * 2, wanted)
  }

  function Reserved(b: Buffer, wanted: nat): Buffer {
    var b' := b.(requested := Max(b.requested, wanted));
    if wanted <= b.capacity then b'
    else b'.(capacity := Grown(b.capacity, wanted), copied := b.copied + b.capacity)
  }

  function Appended(b: Buffer, bytes: seq<bv8>): Buffer {
    if bytes == [] then b
    else Reserved(b, |b.contents| + |bytes|).(contents := b.contents + bytes, put := b.put + bytes)
  }

  function Shifted(b: Buffer, n: nat): Buffer {
    if n > |b.contents| then b else b.(contents := b.contents[n..], taken := b.taken + b.contents[..n])
  }

  function Apply(b: Buffer, op: Op): Buffer {
    match op
    case Append(bytes) => Appended(b, bytes)
    case Reserve(capacity) => Reserved(b, capacity)
    case ShiftPrefix(n) => Shifted(b, n)
    case Clear => Shifted(b, |b.contents|)
  }

  function Run(b: Buffer, ops: seq<Op>): Buffer
    decreases |ops|
  {
    if ops == [] then b else Run(Apply(b, ops[0]), ops[1..])
  }

  /** First in, first out; growth bounded by what was asked for; copying bounded by the capacity. */
  ghost predicate Inv(b: Buffer) {
    && b.put == b.taken + b.contents
    && |b.contents| <= b.capacity
    && b.copied <= b.capacity <= Max(64, 2 * b.requested)
  }

  lemma ApplyKeepsInv(b: Buffer, op: Op)
    requires Inv(b)
    ensures Inv(Apply(b, op))
  {
    match op
    case Append(bytes) => assert b.taken + b.contents + bytes == b.taken + (b.contents + bytes);
    case Reserve(capacity) =>
    case ShiftPrefix(n) =>
      if n <= |b.contents| { TakeKeepsOrder(b, n); }
    case Clear => TakeKeepsOrder(b, |b.contents|);
  }

  lemma TakeKeepsOrder(b: Buffer, n: nat)
    requires b.put == b.taken + b.contents && n <= |b.contents|
    ensures Shifted(b, n).put == Shifted(b, n).taken + Shifted(b, n).contents
  {
    assert b.contents == b.contents[..n] + b.contents[n..];
  }

  lemma {:induction false} RunKeepsInv(b: Buffer, ops: seq<Op>)
    requires Inv(b)
    ensures Inv(Run(b, ops))
    decreases |ops|
  {
    if ops != [] {
      ApplyKeepsInv(b, ops[0]);
      RunKeepsInv(Apply(b, ops[0]), ops[1..]);
    }
  }

  /** The largest explicit reservation of a run. */
  function LargestReserve(ops: seq<Op>): nat {
    if ops == [] then 0
    else Max(if ops[0].Reserve? then ops[0].capacity else 0, LargestReserve(ops[1..]))
  }

  lemma {:induction false} RequestedIsBounded(b: Buffer, ops: seq<Op>, limit: nat)
    requires Inv(b) && b.requested <= limit && LargestReserve(ops) <= limit && |Run(b, ops).put| <= limit
    ensures Run(b, ops).requested <= limit
    decreases |ops|
  {
    if ops != [] {
      var b1 := Apply(b, ops[0]);
      ApplyKeepsInv(b, ops[0]);
      PutGrows(b1, ops[1..]);
      RequestedIsBounded(b1, ops[1..], limit);
    }
  }

  lemma {:induction false} PutGrows(b: Buffer, ops: seq<Op>)
    ensures |b.put| <= |Run(b, ops).put|
    decreases |ops|
  {
    if ops != [] {
      PutGrows(Apply(b, ops[0]), ops[1..]);
    }
  }

  /**
    Amortised cost: over a run without explicit reservations beyond what is appended, all reallocations
    together copy at most max(64, twice the bytes appended).
    */
  lemma CopyingIsLinear(ops: seq<Op>)
    requires LargestReserve(ops) <= |Run(EMPTY_BUFFER, ops).put|
    ensures Run(EMPTY_BUFFER, ops).copied <= Max(64, 2 * |Run(EMPTY_BUFFER, ops).put|)
  {
    RunKeepsInv(EMPTY_BUFFER, ops);
    RequestedIsBounded(EMPTY_BUFFER, ops, |Run(EMPTY_BUFFER, ops).put|);
  }

  // The queue the operations ask for.

  /** The bytes appended. */
  function Input(ops: seq<Op>): seq<bv8> {
    if ops == [] then []
    else
      var op := ops[|ops| - 1];
      Input(ops[..|ops| - 1]) + if op.Append? then op.bytes else []
  }

  /** How many of them are taken: a prefix longer than what is there is refused. */
  function Consumed(ops: seq<Op>): (n: nat)
    ensures n <= |Input(ops)|
  {
    if ops == [] then 0
    else
      var before, op := ops[..|ops| - 1], ops[|ops| - 1];
      match op
      case ShiftPrefix(n) =>
        if n <= |Input(before)| - Consumed(before) then Consumed(before) + n else Consumed(before)
      case Clear => |Input(before)|
      case _ => Consumed(before)
  }

  lemma {:induction false} RunThen(b: Buffer, ops: seq<Op>, op: Op)
    ensures Run(b, ops + [op]) == Apply(Run(b, ops), op)
    decreases |ops|
  {
    hide Apply;
    if ops == [] {
      assert [] + [op] == [op] && [op][1..] == [];
    } else {
      assert (ops + [op])[1..] == ops[1..] + [op];
      RunThen(Apply(b, ops[0]), ops[1..], op);
    }
  }

  /** The buffer holds the bytes appended, in order, but for the prefix taken. */
  ghost predicate IsQueue(b: Buffer, input: seq<bv8>, n: nat)
    requires n <= |input|
  {
    b.put == input && b.taken == input[..n] && b.contents == input[n..]
  }

  lemma ApplyIsQueue(b: Buffer, before: seq<Op>, op: Op)
    requires IsQueue(b, Input(before), Consumed(before))
    ensures IsQueue(Apply(b, op), Input(before + [op]), Consumed(before + [op]))
  {
    hide Input, Consumed, Grown;
    LastOp(before, op);
    var input, n := Input(before), Consumed(before);
    match op
    case Append(bytes) =>
      assert (input + bytes)[..n] == input[..n] && (input + bytes)[n..] == input[n..] + bytes;
    case ShiftPrefix(k) =>
      if k <= |input| - n {
        assert input[n..][k..] == input[n + k..] && input[..n] + input[n..][..k] == input[..n + k];
      }
    case Clear => assert input[..n] + input[n..] == input;
    case Reserve(_) =>
  }

  lemma LastOp(before: seq<Op>, op: Op)
    ensures Input(before + [op]) == Input(before) + if op.Append? then op.bytes else []
    ensures var (n, m) := (Consumed(before), Consumed(before + [op]));
            m == match op
                 case ShiftPrefix(k) => if k <= |Input(before)| - n then n + k else n
                 case Clear => |Input(before)|
                 case _ => n
  {
    assert (before + [op])[..|before|] == before;
  }

  lemma {:induction false} RunIsQueue(ops: seq<Op>)
    ensures IsQueue(Run(EMPTY_BUFFER, ops), Input(ops), Consumed(ops))
    decreases |ops|
  {
    hide Apply, Input, Consumed;
    if ops != [] {
      var before, op := ops[..|ops| - 1], ops[|ops| - 1];
      assert ops == before + [op];
      RunIsQueue(before);
      RunThen(EMPTY_BUFFER, before, op);
      ApplyIsQueue(Run(EMPTY_BUFFER, before), before, op);
    } else {
      NothingQueued();
    }
  }

  lemma NothingQueued()
    ensures Input([]) == [] && Consumed([]) == 0
  {
  }

  /** The first allocation is of 64 bytes or what is needed; each later one doubles, or is what is needed. */
  lemma Allocated(b: Buffer, wanted: nat)
    requires wanted > b.capacity
    ensures b.capacity == 0 ==> Reserved(b, wanted).capacity == if wanted <= 64 then 64 else wanted
    ensures b.capacity > 0 ==>
              Reserved(b, wanted).capacity ==
              if wanted <= b.capacity + b.capacity then b.capacity + b.capacity else wanted
  {
  }
}
