/** The single-producer, single-consumer ring buffer: its operations one at a time, and its
    loads, stores and count updates interleaved in any order. */
module RingBuffer {

  // ---------- indices ----------

  /** Different places less than n apart have different slots. */
  lemma {:induction false} SlotsDiffer(i: nat, j: nat, n: nat)
    requires n > 0 && i < j < i + n
    ensures i % n != j % n
  {
    if i % n == j % n {
      var a, b := i / n, j / n;
      assert i == a * n + i % n && j == b * n + j % n;
      assert j - i == (b - a) * n by { Distribute(b, a, n); }
      if b - a >= 1 { MulAtLeast(b - a, n); } else { MulAtMost(b - a, n); }
    }
  }

  lemma Distribute(b: int, a: int, n: int)
    ensures b * n - a * n == (b - a) * n
  {
  }

  lemma MulAtLeast(k: int, n: int)
    requires k >= 1 && n > 0
    ensures k * n >= n
  {
  }

  lemma MulAtMost(k: int, n: int)
    requires k <= 0 && n > 0
    ensures k * n <= 0
  {
  }

  lemma {:induction false} SlotNext(i: nat, n: nat, next: nat)
    requires n > 0 && next == i + 1
    ensures (i % n + 1) % n == next % n
  {
    var a := i / n;
    assert i == a * n + i % n;
    if i % n + 1 < n {
      DivModUnique(next, n, a, i % n + 1);
    } else {
      assert next == (a + 1) * n + 0;
      DivModUnique(next, n, a + 1, 0);
      assert n % n == 0;
    }
  }

  lemma {:induction false} DivModUnique(x: int, n: int, q: int, r: int)
    requires n > 0 && x == q * n + r && 0 <= r < n
    ensures x % n == r
  {
    var q', r' := x / n, x % n;
    assert x == q' * n + r';
    Distribute(q, q', n);
    if q > q' { MulAtLeast(q - q', n); }
    if q < q' { Distribute(q', q, n); MulAtLeast(q' - q, n); }
  }

  // ---------- one operation at a time ----------

  /** The ring holds the items that were stored and not yet read, the oldest at read. */
  class RingBufferN {
    const data: array<int>
    var read: nat
    var write: nat
    var count: nat
    /** Every byte stored, and how many of them have been read. */
    ghost var stored: seq<int>
    ghost var taken: nat

    ghost predicate Valid()
      reads this, data
    {
      && data.Length > 0 && count <= data.Length && taken + count == |stored|
      && read == taken % data.Length && write == |stored| % data.Length
      && forall i :: taken <= i < |stored| ==> Slot(i) == stored[i]
    }

    function Slot(i: nat): int
      requires data.Length > 0
      reads data
    {
      data[i % data.Length]
    }

    ghost function Contents(): seq<int>
      requires taken <= |stored|
      reads this
    {
      stored[taken..]
    }

    constructor (n: nat)
      requires n > 0
      ensures Valid() && Contents() == [] && data.Length == n && fresh(data)
    {
      data := new int[n](_ => 0);
      read, write, count := 0, 0, 0;
      stored, taken := [], 0;
    }

    /** Appends a byte, or drops it when the ring is full. */
    method StoreChar(value: int)
      requires Valid()
      modifies this, data
      ensures Valid()
      ensures Contents() == if old(count) == data.Length then old(Contents()) else old(Contents()) + [value]
    {
      if count == data.Length {
        return;
      }
      ghost var at, n := |stored|, data.Length;
      forall i: nat | taken <= i < at ensures i % n != at % n { SlotsDiffer(i, at, n); }
      SlotNext(at, n, at + 1);
      data[write] := value;
      write := (write + 1) % data.Length;
      count := count + 1;
      stored := stored + [value];
    }

    /** Takes the oldest byte; -1 when there is none. */
    method ReadChar() returns (value: int)
      requires Valid()
      modifies this
      ensures Valid()
      ensures if old(Contents()) == [] then value == -1 && Contents() == []
              else value == old(Contents())[0] && Contents() == old(Contents())[1..]
    {
      if count == 0 {
        return -1;
      }
      SlotNext(taken, data.Length, taken + 1);
      value := data[read];
      assert Slot(taken) == value;
      read := (read + 1) % data.Length;
      count := count - 1;
      taken := taken + 1;
    }

    method Peek() returns (value: int)
      requires Valid()
      ensures value == if Contents() == [] then -1 else Contents()[0]
    {
      value := -1;
      if count != 0 {
        assert Slot(taken) == data[read];
        value := data[read];
      }
    }

    /** Both sides must be quiet. */
    method Clear()
      requires Valid()
      modifies this
      ensures Valid() && Contents() == []
    {
      read, write, count := 0, 0, 0;
      stored, taken := [], 0;
      assert 0 % data.Length == 0;
    }
  }

  // ---------- interleaved ----------

  /** Where the producer is in storing a byte, and the consumer in reading one. */
  datatype Producer = Ready | Free(value: int) | Written(value: int) | Advanced(value: int)
  datatype Consumer = Waiting | Nonempty | Got(value: int) | Passed(value: int)

  /** The shared ring and both threads; accepted are the bytes whose count has been added,
      consumed those whose count has been taken away. */
  datatype State = State(data: seq<int>, read: nat, write: nat, count: int, producer: Producer, consumer: Consumer,
                         accepted: seq<int>, consumed: seq<int>)

  /** One shared access of either thread. */
  datatype Step = CheckFull(value: int) | WriteData | AdvanceWrite | AddCount
                | CheckEmpty | ReadData | AdvanceRead | SubCount

  predicate Enabled(s: State, step: Step) {
    match step
    case CheckFull(_) => s.producer.Ready?
    case WriteData => s.producer.Free? && s.write < |s.data|
    case AdvanceWrite => s.producer.Written? && |s.data| > 0
    case AddCount => s.producer.Advanced?
    case CheckEmpty => s.consumer.Waiting?
    case ReadData => s.consumer.Nonempty? && s.read < |s.data|
    case AdvanceRead => s.consumer.Got? && |s.data| > 0
    case SubCount => s.consumer.Passed?
  }

  function Next(s: State, step: Step): (t: State)
    requires Enabled(s, step)
    ensures |t.data| == |s.data|
  {
    match step
    case CheckFull(value) => if s.count == |s.data| then s else s.(producer := Free(value))
    case WriteData => s.(data := s.data[s.write := s.producer.value], producer := Written(s.producer.value))
    case AdvanceWrite => s.(write := (s.write + 1) % |s.data|, producer := Advanced(s.producer.value))
    case AddCount => s.(count := s.count + 1, producer := Ready, accepted := s.accepted + [s.producer.value])
    case CheckEmpty => if s.count == 0 then s else s.(consumer := Nonempty)
    case ReadData => s.(consumer := Got(s.data[s.read]))
    case AdvanceRead => s.(read := (s.read + 1) % |s.data|, consumer := Passed(s.consumer.value))
    case SubCount => s.(count := s.count - 1, consumer := Waiting, consumed := s.consumed + [s.consumer.value])
  }

  /** Every byte accepted and not consumed is in its slot; the count is their number; the
      indices are where the threads have got to; a thread that passed its check still may go
      on. */
  ghost predicate Inv(s: State) {
    var n, a, c := |s.data|, |s.accepted|, |s.consumed|;
    && n > 0 && s.count == a - c && 0 <= s.count <= n && s.consumed == s.accepted[..c]
    && (forall i :: c <= i < a ==> SlotOf(s, i) == s.accepted[i])
    && s.write == (if s.producer.Advanced? then a + 1 else a) % n
    && s.read == (if s.consumer.Passed? then c + 1 else c) % n
    && (!s.producer.Ready? ==> s.count < n)
    && (s.producer.Written? || s.producer.Advanced? ==> SlotOf(s, a) == s.producer.value)
    && (!s.consumer.Waiting? ==> s.count > 0)
    && (s.consumer.Got? || s.consumer.Passed? ==> s.consumer.value == s.accepted[c])
  }

  function SlotOf(s: State, i: nat): int
    requires |s.data| > 0
  {
    s.data[i % |s.data|]
  }

  function Start(n: nat): State
    requires n > 0
  {
    State(seq(n, _ => 0), 0, 0, 0, Ready, Waiting, [], [])
  }

  /** Every access keeps the invariant. */
  lemma {:induction false} NextKeeps(s: State, step: Step)
    requires Inv(s) && Enabled(s, step)
    ensures Inv(Next(s, step))
  {
    var n, a, c := |s.data|, |s.accepted|, |s.consumed|;
    match step
    case WriteData =>
      forall i: nat | c <= i < a ensures i % n != a % n { SlotsDiffer(i, a, n); }
    case AdvanceWrite => SlotNext(a, n, a + 1);
    case AdvanceRead => SlotNext(c, n, c + 1);
    case AddCount =>
      var t := Next(s, step);
      forall i | c <= i < a + 1 ensures SlotOf(t, i) == t.accepted[i] {
        if i < a { assert SlotOf(s, i) == s.accepted[i]; }
      }
    case ReadData => assert SlotOf(s, c) == s.accepted[c];
    case _ =>
  }

  /** Writing never touches the slot of a byte that has not been consumed. */
  lemma {:induction false} UnreadSafe(s: State, i: nat)
    requires Inv(s) && s.producer.Free? && |s.consumed| <= i < |s.accepted|
    ensures s.write < |s.data| && SlotOf(Next(s, WriteData), i) == SlotOf(s, i) == s.accepted[i]
  {
    SlotsDiffer(i, |s.accepted|, |s.data|);
  }

  /** The state after some accesses; none when one cannot happen. */
  function Run(s: State, steps: seq<Step>): (r: (bool, State))
    ensures |r.1.data| == |s.data|
    decreases |steps|
  {
    if steps == [] then (true, s)
    else if Enabled(s, steps[0]) then Run(Next(s, steps[0]), steps[1..])
    else (false, s)
  }

  lemma {:induction false} RunKeeps(s: State, steps: seq<Step>)
    requires Inv(s)
    ensures Inv(Run(s, steps).1)
    decreases |steps|
  {
    if steps != [] && Enabled(s, steps[0]) {
      NextKeeps(s, steps[0]);
      RunKeeps(Next(s, steps[0]), steps[1..]);
    }
  }

  /** In every interleaving the bytes consumed are a prefix of those accepted, in order, the
      count tells how many are between and stays within the capacity, a consumer that is told
      the ring is empty has consumed all that was accepted, and a producer that is told it is full
      has n bytes in it. */
  lemma {:induction false} IsQueue(n: nat, steps: seq<Step>)
    requires n > 0
    ensures var s := Run(Start(n), steps).1;
      && s.consumed <= s.accepted && 0 <= s.count == |s.accepted| - |s.consumed| <= n
      && (s.consumer.Waiting? && Next(s, CheckEmpty) == s ==> s.consumed == s.accepted)
      && (forall v :: s.producer.Ready? && Next(s, CheckFull(v)) == s ==> |s.accepted| == |s.consumed| + n)
  {
    assert 0 % n == 0;
    RunKeeps(Start(n), steps);
  }

  lemma RunFour(s: State, a: Step, b: Step, c: Step, d: Step)
    requires Enabled(s, a) && Enabled(Next(s, a), b) && Enabled(Next(Next(s, a), b), c)
    requires Enabled(Next(Next(Next(s, a), b), c), d)
    ensures Run(s, [a, b, c, d]) == (true, Next(Next(Next(Next(s, a), b), c), d))
  {
    assert [a, b, c, d][1..] == [b, c, d] && [b, c, d][1..] == [c, d] && [c, d][1..] == [d] && [d][1..] == [];
    var t := Next(Next(Next(s, a), b), c);
    assert Run(t, [d]) == (true, Next(t, d));
    assert Run(Next(Next(s, a), b), [c, d]) == Run(t, [d]);
    assert Run(Next(s, a), [b, c, d]) == Run(Next(Next(s, a), b), [c, d]);
  }

  /** A producer that finds room stores its byte, whatever has happened before. */
  lemma {:induction false} Stores(n: nat, steps: seq<Step>, v: int)
    requires n > 0
    ensures var s := Run(Start(n), steps).1;
      s.producer.Ready? && |s.accepted| - |s.consumed| < n ==>
        var r := Run(s, [CheckFull(v), WriteData, AdvanceWrite, AddCount]);
        r.0 && r.1.producer.Ready? && r.1.accepted == s.accepted + [v] && r.1.consumed == s.consumed
  {
    assert 0 % n == 0;
    RunKeeps(Start(n), steps);
    var s := Run(Start(n), steps).1;
    if s.producer.Ready? && |s.accepted| - |s.consumed| < n {
      RunFour(s, CheckFull(v), WriteData, AdvanceWrite, AddCount);
    }
  }

  /** A consumer that finds a byte takes the oldest. */
  lemma {:induction false} Consumes(n: nat, steps: seq<Step>)
    requires n > 0
    ensures var s := Run(Start(n), steps).1;
      s.consumer.Waiting? && |s.consumed| < |s.accepted| ==>
        var r := Run(s, [CheckEmpty, ReadData, AdvanceRead, SubCount]);
        r.0 && r.1.consumer.Waiting? && r.1.consumed == s.consumed + [s.accepted[|s.consumed|]] && r.1.accepted == s.accepted
  {
    assert 0 % n == 0;
    RunKeeps(Start(n), steps);
    var s := Run(Start(n), steps).1;
    if s.consumer.Waiting? && |s.consumed| < |s.accepted| {
      assert SlotOf(s, |s.consumed|) == s.accepted[|s.consumed|];
      RunFour(s, CheckEmpty, ReadData, AdvanceRead, SubCount);
    }
  }
}
