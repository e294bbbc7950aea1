/**
 `asio::basic_streambuf` (3rd/asio/asio/basic_streambuf.hpp): a byte queue in one array.

 The stream positions are offsets into the array: `gnext` (gptr), `gend` (egptr), `pnext`
 (pptr) and `pend` (epptr). Input is what lies between `gnext` and `pnext`. `taken` records,
 for the proofs only, every byte that left the input so far.
 */
module StreamBuffer {
  import opened Common

  const BUFFER_DELTA := 128
  const READ_SIZE := 512

  function Min(a: nat, b: nat): nat { if a < b then a else b }
  function Max(a: nat, b: nat): nat { if a < b then b else a }

  /** The array after its bytes from `gnext` to `pnext` have moved to the front. */
  function Shifted(b: seq<byte>, gnext: nat, pnext: nat): seq<byte>
    requires gnext <= pnext <= |b|
  {
    b[gnext..pnext] + b[pnext - gnext..]
  }

  // ---- The queue it implements ----------------------------------------------------------

  /** A queue of bytes with a limit: what was taken out of it so far, and what is in it. */
  datatype Queue = Queue(limit: nat, taken: seq<byte>, data: seq<byte>)

  datatype Op = Put(bytes: seq<byte>) | Take(n: nat)

  /** Bytes that do not all fit are refused; taking stops at the end. */
  predicate Fits(q: Queue, op: Op) {
    op.Put? ==> |q.data| + |op.bytes| <= q.limit
  }

  function Apply(q: Queue, op: Op): Queue {
    match op
    case Put(bytes) => if Fits(q, op) then q.(data := q.data + bytes) else q
    case Take(n) =>
      var m := Min(n, |q.data|);
      q.(taken := q.taken + q.data[..m], data := q.data[m..])
  }

  function ApplyAll(q: Queue, ops: seq<Op>): Queue
    decreases |ops|
  {
    if ops == [] then q else ApplyAll(Apply(q, ops[0]), ops[1..])
  }

  /** The bytes that were not refused, in order. */
  function Accepted(q: Queue, ops: seq<Op>): seq<byte>
    decreases |ops|
  {
    if ops == [] then [] else
      (if ops[0].Put? && Fits(q, ops[0]) then ops[0].bytes else []) + Accepted(Apply(q, ops[0]), ops[1..])
  }

  /**
   First in, first out, within the limit, over every list of operations: what was taken,
   followed by what is left, is what was put in.
   */
  lemma {:induction false} Fifo(q: Queue, ops: seq<Op>)
    requires |q.data| <= q.limit
    ensures var end := ApplyAll(q, ops);
            && end.taken + end.data == q.taken + q.data + Accepted(q, ops)
            && |end.data| <= end.limit == q.limit
    decreases |ops|
  {
    if ops != [] {
      var next := Apply(q, ops[0]);
      Fifo(next, ops[1..]);
      FifoStep(q, ops[0]);
      var more := if ops[0].Put? && Fits(q, ops[0]) then ops[0].bytes else [];
      assert q.taken + q.data + (more + Accepted(next, ops[1..]))
          == (q.taken + q.data + more) + Accepted(next, ops[1..]);
    }
  }

  lemma FifoStep(q: Queue, op: Op)
    ensures var next := Apply(q, op);
            next.taken + next.data ==
            q.taken + q.data + if op.Put? && Fits(q, op) then op.bytes else []
  {
    if op.Take? {
      assert q.data == q.data[..Min(op.n, |q.data|)] + q.data[Min(op.n, |q.data|)..];
    }
  }

  /** A single taker gets the bytes one by one in the order they were put. */
  lemma TakenArePrefix(limit: nat, ops: seq<Op>)
    ensures var q := Queue(limit, [], []);
            ApplyAll(q, ops).taken <= Accepted(q, ops)
  {
    var q := Queue(limit, [], []);
    Fifo(q, ops);
    assert q.taken + q.data + Accepted(q, ops) == Accepted(q, ops);
  }

  lemma TakeIs(q: Queue, n: nat, m: nat)
    requires m == Min(n, |q.data|)
    ensures Apply(q, Take(n)) == Queue(q.limit, q.taken + q.data[..m], q.data[m..])
  {
  }

  lemma CutTwice(taken: seq<byte>, data: seq<byte>, m: nat, n: nat)
    requires m <= n <= |data|
    ensures taken + data[..m] + data[m..][..n - m] == taken + data[..n]
    ensures data[m..][n - m..] == data[n..]
  {
    assert data[..m] + data[m..][..n - m] == data[..n];
  }

  /** Taking twice is taking both at once. */
  lemma TakesAdd(q: Queue, a: nat, b: nat)
    ensures Apply(Apply(q, Take(a)), Take(b)) == Apply(q, Take(a + b))
  {
    hide Apply;
    var m, n := Min(a, |q.data|), Min(a + b, |q.data|);
    TakeIs(q, a, m);
    TakeIs(Apply(q, Take(a)), b, n - m);
    TakeIs(q, a + b, n);
    CutTwice(q.taken, q.data, m, n);
  }

  /** Taking one byte takes the first; so `TakesAdd` says what taking any number does. */
  lemma TakesFirst(q: Queue)
    requires q.data != []
    ensures Apply(q, Take(1)) == Queue(q.limit, q.taken + q.data[..1], q.data[1..])
  {
  }

  /** Nothing is taken from an empty queue, or by taking none. */
  lemma TakesNothing(q: Queue, n: nat)
    requires q.data == [] || n == 0
    ensures Apply(q, Take(n)) == q
  {
    hide Apply;
    TakeIs(q, n, 0);
    assert q.taken + q.data[..0] == q.taken && q.data[0..] == q.data;
  }

  // ---- The buffer -----------------------------------------------------------------------

  lemma MovedToFront(b: seq<byte>, was: seq<byte>, gnext: nat, pnext: nat)
    requires gnext <= pnext <= |was| == |b|
    requires forall m | 0 <= m < pnext - gnext :: b[m] == was[gnext + m]
    requires forall m | pnext - gnext <= m < |b| :: b[m] == was[m]
    ensures b == Shifted(was, gnext, pnext)
  {
  }

  predicate Periodic(input: seq<byte>, period: nat) {
    forall i | 0 <= i < |input| - period :: input[i] == input[i + period]
  }

  /** What the old positions show after the shift is the input exactly when that repeats itself. */
  lemma ShiftKeeps(b: seq<byte>, gnext: nat, pnext: nat)
    requires gnext <= pnext <= |b|
    ensures Shifted(b, gnext, pnext)[gnext..pnext] == b[gnext..pnext] <==> Periodic(b[gnext..pnext], gnext)
  {
    var input := b[gnext..pnext];
    var after := Shifted(b, gnext, pnext)[gnext..pnext];
    assert forall i | 0 <= i < |input| ::
        after[i] == if i < |input| - gnext then input[i + gnext] else input[i];
  }

  /** `memmove` towards the front, byte by byte from the front. */
  method MemMove(b: array<byte>, first: nat, n: nat)
    requires first + n <= b.Length
    modifies b
    ensures forall m | 0 <= m < n :: b[m] == old(b[first + m])
    ensures forall m | n <= m < b.Length :: b[m] == old(b[m])
  {
    var k := 0;
    while k < n
      invariant 0 <= k <= n
      invariant forall m | 0 <= m < k :: b[m] == old(b[first + m])
      invariant forall m | k <= m < b.Length :: b[m] == old(b[m])
    {
      b[k] := b[first + k];
      k := k + 1;
    }
  }

  class BasicStreambuf {
    const maxSize: nat
    var buffer: array<byte>
    var gnext: nat
    var gend: nat
    var pnext: nat
    var pend: nat
    ghost var taken: seq<byte>

    ghost predicate Valid()
      reads this
    {
      && gnext <= gend <= pnext <= pend <= maxSize
      && buffer.Length == Max(pend, 1)
    }

    /** The input sequence: `data()`. */
    function Data(): seq<byte>
      requires Valid()
      reads this, buffer
    {
      buffer[gnext..pnext]
    }

    function Size(): (r: nat)
      requires Valid()
      reads this, buffer
      ensures r == |Data()|
    {
      pnext - gnext
    }

    ghost function Abs(): Queue
      requires Valid()
      reads this, buffer
    {
      Queue(maxSize, taken, Data())
    }

    constructor (maximumSize: nat)
      ensures Valid() && fresh(buffer) && pend == Min(maximumSize, BUFFER_DELTA)
      ensures Abs() == Queue(maximumSize, [], [])
    {
      maxSize := maximumSize;
      var end := Min(maximumSize, BUFFER_DELTA);
      buffer := new byte[Max(end, 1)];
      gnext, gend, pnext, pend := 0, 0, 0, end;
      taken := [];
    }

    /** The input moves to the front of the array. */
    method MoveToFront()
      requires Valid()
      modifies buffer
      ensures buffer[..] == old(Shifted(buffer[..], gnext, pnext))
    {
      hide Shifted;
      ghost var was := buffer[..];
      MemMove(buffer, gnext, pnext - gnext);
      MovedToFront(buffer[..], was, gnext, pnext);
    }

    /** `vector::resize` to a larger size. */
    method Resize(length: nat)
      requires buffer.Length <= length
      modifies this`buffer
      ensures fresh(buffer) && buffer.Length == length
      ensures buffer[..old(buffer.Length)] == old(buffer[..])
    {
      var grown := new byte[length];
      var k := 0;
      while k < buffer.Length
        invariant buffer == old(buffer) && 0 <= k <= buffer.Length
        invariant forall m | 0 <= m < k :: grown[m] == buffer[m]
      {
        grown[k] := buffer[k];
        k := k + 1;
      }
      buffer := grown;
    }

    /**
     Makes room for `n` more bytes, or fails. It fails exactly when `n` bytes more than the
     input would pass the limit. The input survives, except that a failing call on a buffer
     whose input is not at its front has already moved the bytes under the old positions.
     */
    method Reserve(n: nat) returns (ok: bool)
      requires Valid()
      modifies this`gnext, this`gend, this`pnext, this`pend, this`buffer, buffer
      ensures Valid() && (buffer == old(buffer) || fresh(buffer))
      ensures ok <==> old(Size()) + n <= maxSize
      ensures ok ==> Data() == old(Data()) && n <= pend - pnext
      ensures ok && n <= old(pend - pnext) ==>
                buffer == old(buffer) && buffer[..] == old(buffer[..])
                && pnext == old(pnext) && pend == old(pend) && gnext == old(gnext) && gend == old(gend)
      ensures ok && n > old(pend - pnext) ==> gnext == 0 && gend == pnext
      ensures !ok ==> gnext == old(gnext) && pnext == old(pnext) && pend == old(pend) && gend == old(gend)
      ensures !ok ==> buffer[..] == old(Shifted(buffer[..], gnext, pnext))
      ensures !ok && old(gnext) == 0 ==> Data() == old(Data())
    {
      var next, end := pnext, pend;
      if n <= end - next {
        return true;
      }
      ghost var input := Data();
      if gnext > 0 {
        next := next - gnext;
        MoveToFront();
      }
      assert buffer[..] == old(Shifted(buffer[..], gnext, pnext));
      assert buffer[..next] == input;
      if n > end - next {
        if n <= maxSize && next <= maxSize - n {
          end := next + n;
          Resize(Max(end, 1));
          assert buffer[..next] == input;
        } else {
          return false;
        }
      }
      gnext, gend, pnext, pend := 0, next, next, end;
      return true;
    }

    /**
     Room for `n` bytes behind the input; fails exactly when that passes the limit. A failing
     call keeps the input exactly when it repeats itself with the period `gnext`; so it does
     when the input is at the front, or no longer than the free space in front of it.
     */
    method Prepare(n: nat) returns (ok: bool)
      requires Valid()
      modifies this`gnext, this`gend, this`pnext, this`pend, this`buffer, buffer
      ensures Valid() && (buffer == old(buffer) || fresh(buffer))
      ensures ok <==> old(Size()) + n <= maxSize
      ensures ok ==> Data() == old(Data()) && n <= pend - pnext
      ensures ok ==> Abs() == old(Abs())
      ensures !ok ==> gnext == old(gnext) && pnext == old(pnext)
                      && buffer[..] == old(Shifted(buffer[..], gnext, pnext))
      ensures !ok ==> (Data() == old(Data()) <==> Periodic(old(Data()), old(gnext)))
      ensures !ok && (old(gnext) == 0 || old(Size()) <= old(gnext)) ==> Data() == old(Data())
    {
      ghost var was := buffer[..];
      ShiftKeeps(was, gnext, pnext);
      hide Shifted;
      ok := Reserve(n);
      if !ok { assert Data() == buffer[..][gnext..pnext] && old(Data()) == was[gnext..pnext]; }
    }

    /** The caller's own writes to the prepared room. */
    method Fill(bytes: seq<byte>)
      requires Valid() && |bytes| <= pend - pnext
      modifies buffer
      ensures Abs() == old(Abs())
      ensures buffer[pnext..pnext + |bytes|] == bytes
    {
      var k := 0;
      while k < |bytes|
        invariant 0 <= k <= |bytes|
        invariant buffer[pnext..pnext + k] == bytes[..k]
        invariant buffer[..pnext] == old(buffer[..pnext])
      {
        buffer[pnext + k] := bytes[k];
        k := k + 1;
      }
      assert Data() == buffer[..pnext][gnext..];
      assert old(Data()) == old(buffer[..pnext])[gnext..];
    }

    /** The first `n` bytes of the room, or all of it, become input. */
    method Commit(n: nat)
      requires Valid()
      modifies this`pnext, this`gend
      ensures Valid() && gnext == old(gnext) && gend == pnext
      ensures var moved := Put(old(buffer[pnext..pnext + Min(n, pend - pnext)]));
              Fits(old(Abs()), moved) && Abs() == Apply(old(Abs()), moved)
    {
      var m := Min(n, pend - pnext);
      ghost var moved := buffer[pnext..pnext + m];
      assert buffer[gnext..pnext + m] == Data() + moved;
      pnext := pnext + m;
      gend := pnext;
    }

    /** The first `n` bytes of the input, or all of it, are dropped. */
    method Consume(n: nat)
      requires Valid()
      modifies this`gnext, this`gend, this`taken
      ensures Valid() && gend == pnext
      ensures Abs() == Apply(old(Abs()), Take(n))
    {
      if gend < pnext {
        gend := pnext;
      }
      var m := if gnext + n > pnext then pnext - gnext else n;
      assert buffer[gnext + m..pnext] == Data()[m..];
      taken := taken + Data()[..m];
      gnext := gnext + m;
    }

    /** The next input byte, without taking it. */
    method Underflow() returns (c: Option<byte>)
      requires Valid()
      modifies this`gend
      ensures Valid() && Abs() == old(Abs())
      ensures c == if Data() == [] then None else Some(Data()[0])
      ensures c.Some? ==> gend == pnext
    {
      if gnext < pnext {
        gend := pnext;
        return Some(buffer[gnext]);
      }
      return None;
    }

    /** Takes one byte: `sbumpc`, which refills through `underflow`. */
    method GetChar() returns (c: Option<byte>)
      requires Valid()
      modifies this`gnext, this`gend, this`taken
      ensures Valid() && Abs() == Apply(old(Abs()), Take(1))
      ensures c == if old(Data()) == [] then None else Some(old(Data())[0])
    {
      if gnext < gend {
        c := Some(buffer[gnext]);
      } else {
        c := Underflow();
      }
      if c.Some? {
          assert buffer[gnext + 1..pnext] == Data()[1..] && Data()[..1] == [c.value];
        taken := taken + [c.value];
        gnext := gnext + 1;
      }
    }

    /** Writes one byte at the put position and moves past it. */
    method Store(c: byte)
      requires Valid() && pnext < pend
      modifies this`pnext, buffer
      ensures Valid() && Fits(old(Abs()), Put([c])) && Abs() == Apply(old(Abs()), Put([c]))
    {
      ghost var input := Data();
      buffer[pnext] := c;
      assert buffer[gnext..pnext] == input;
      pnext := pnext + 1;
      assert Data() == input + [c];
    }

    /**
     Appends one byte to the input, making room first if there is none. It fails exactly
     when the input already has the size limit, and then leaves the input as it is.
     */
    method Overflow(c: Option<byte>) returns (ok: bool)
      requires Valid()
      modifies this, buffer
      ensures Valid() && (buffer == old(buffer) || fresh(buffer))
      ensures ok <==> c == None || Fits(old(Abs()), Put([c.value]))
      ensures Abs() == if c == None then old(Abs()) else Apply(old(Abs()), Put([c.value]))
    {
      if c == None {
        return true;
      }
      if pnext == pend {
        var bufferSize := pnext - gnext;
        var room := if bufferSize < maxSize && maxSize - bufferSize < BUFFER_DELTA
                    then maxSize - bufferSize else BUFFER_DELTA;
        ok := Reserve(room);
        if !ok {
          return false;
        }
      }
      Store(c.value);
      return true;
    }

    /** Puts one byte: `sputc`, which makes room through `overflow`. */
    method PutChar(c: byte) returns (ok: bool)
      requires Valid()
      modifies this, buffer
      ensures Valid() && (buffer == old(buffer) || fresh(buffer))
      ensures ok <==> old(Size()) < maxSize
      ensures Abs() == Apply(old(Abs()), Put([c]))
    {
      if pnext < pend {
        Store(c);
        return true;
      }
      ok := Overflow(Some(c));
    }

    /** The size a reader should prepare for; `capacity` is the vector's own. */
    function ReadSizeHelper(capacity: nat, maxRead: nat): (r: nat)
      requires Valid() && buffer.Length <= capacity
      reads this, buffer
      ensures Size() + r <= maxSize && r <= maxRead
      ensures r >= Min(READ_SIZE, Min(maxRead, maxSize - Size()))
      ensures r >= Min(capacity - Size(), Min(maxRead, maxSize - Size()))
      ensures r <= Max(READ_SIZE, capacity - Size())
    {
      Min(Max(READ_SIZE, capacity - Size()), Min(maxRead, maxSize - Size()))
    }

    /** Preparing the advised size and committing what was read appends it; this cannot fail. */
    method ReadSome(capacity: nat, maxRead: nat, source: seq<byte>) returns (count: nat)
      requires Valid() && buffer.Length <= capacity
      modifies this, buffer
      ensures Valid()
      ensures count == Min(|source|, old(ReadSizeHelper(capacity, maxRead)))
      ensures Fits(old(Abs()), Put(source[..count])) && Abs() == Apply(old(Abs()), Put(source[..count]))
    {
      hide Apply, Fits, Abs, ReadSizeHelper, Periodic, Shifted;
      var size := ReadSizeHelper(capacity, maxRead);
      var ok := Prepare(size);
      assert ok;
      count := Min(|source|, size);
      Fill(source[..count]);
      Commit(count);
    }

    /**
     One operation by a caller that looks at the size before it prepares room, since a failing
     `Prepare` may change the input; single bytes go through the stream interface.
     */
    method Perform(op: Op)
      requires Valid()
      modifies this, buffer
      ensures Valid() && (buffer == old(buffer) || fresh(buffer))
      ensures Abs() == Apply(old(Abs()), op)
    {
      hide Apply, Periodic, Shifted;
      match op {
        case Put(bytes) =>
          RefusedUnlessFits(Abs(), bytes);
          if |bytes| == 1 {
            var _ := PutChar(bytes[0]);
            assert [bytes[0]] == bytes;
          } else if Size() + |bytes| <= maxSize {
            var _ := Prepare(|bytes|);
            Fill(bytes);
            Commit(|bytes|);
          }
        case Take(n) =>
          if n == 1 {
            var _ := GetChar();
          } else {
            Consume(n);
          }
      }
    }
  }

  lemma RefusedUnlessFits(q: Queue, bytes: seq<byte>)
    ensures |q.data| + |bytes| > q.limit ==> Apply(q, Put(bytes)) == q
  {
  }

  /** Over every list of operations the array is the queue. */
  method PerformAll(b: BasicStreambuf, ops: seq<Op>)
    requires b.Valid()
    modifies b, b.buffer
    ensures b.Valid() && b.Abs() == ApplyAll(old(b.Abs()), ops)
  {
    hide Apply, ApplyAll, BasicStreambuf.Abs, BasicStreambuf.Valid;
    assert ops[0..] == ops;
    for k := 0 to |ops|
      invariant b.Valid() && (b.buffer == old(b.buffer) || fresh(b.buffer))
      invariant ApplyAll(b.Abs(), ops[k..]) == ApplyAll(old(b.Abs()), ops)
    {
      ApplyStep(b.Abs(), ops, k);
      b.Perform(ops[k]);
    }
    ApplyStep(b.Abs(), ops, |ops|);
  }

  lemma ApplyStep(q: Queue, ops: seq<Op>, k: nat)
    requires k <= |ops|
    ensures ApplyAll(q, ops[k..]) == if k == |ops| then q else ApplyAll(Apply(q, ops[k]), ops[k + 1..])
  {
    hide Apply;
    if k < |ops| { assert ops[k..][1..] == ops[k + 1..]; }
  }

  /**
   A new buffer, used in any way, is first in, first out and within its limit: what it gave
   followed by what is in it is what was put in and fitted.
   */
  method UseAll(limit: nat, ops: seq<Op>) returns (left: seq<byte>)
    ensures var end := ApplyAll(Queue(limit, [], []), ops);
            left == end.data && end.taken + left == Accepted(Queue(limit, [], []), ops) && |left| <= limit
  {
    hide ApplyAll, Accepted, Apply;
    var b := new BasicStreambuf(limit);
    PerformAll(b, ops);
    left := b.Data();
    Fifo(Queue(limit, [], []), ops);
    assert [] + [] + Accepted(Queue(limit, [], []), ops) == Accepted(Queue(limit, [], []), ops);
  }

  lemma ApplyThree(q: Queue, a: Op, b: Op, c: Op)
    ensures ApplyAll(q, [a, b, c]) == Apply(Apply(Apply(q, a), b), c)
  {
    hide Apply;
    assert [a, b, c][1..] == [b, c] && [b, c][1..] == [c] && [c][1..] == [];
    assert ApplyAll(q, [a, b, c]) == ApplyAll(Apply(q, a), [b, c]);
    assert ApplyAll(Apply(q, a), [b, c]) == ApplyAll(Apply(Apply(q, a), b), [c]);
  }

  lemma PutThenTake(x: byte, a: byte, c: byte)
    ensures ApplyAll(Queue(3, [], []), [Put([x]), Put([a]), Put([c])]) == Queue(3, [], [x, a, c])
    ensures Apply(Queue(3, [], [x, a, c]), Take(1)) == Queue(3, [x], [a, c])
  {
    var q := Queue(3, [], []);
    ApplyThree(q, Put([x]), Put([a]), Put([c]));
    hide ApplyAll;
    assert [] + [x] == [x] && [x] + [a] == [x, a] && [x, a] + [c] == [x, a, c];
    assert [x, a, c][..1] == [x] && [x, a, c][1..] == [a, c] && [] + [x] == [x];
  }

  /** Three bytes put into a buffer with room for three, and the first taken out again. */
  method OneTakenOfThree(x: byte, a: byte, c: byte) returns (b: BasicStreambuf)
    ensures fresh(b) && fresh(b.buffer) && b.Valid() && b.Abs() == Queue(3, [x], [a, c])
    ensures b.gnext == 1 && b.pnext == b.buffer.Length == 3
  {
    hide Apply, Fits, ApplyAll;
    b := new BasicStreambuf(3);
    ApplyThree(b.Abs(), Put([x]), Put([a]), Put([c]));
    PutThenTake(x, a, c);
    var _ := b.PutChar(x);
    var _ := b.PutChar(a);
    var _ := b.PutChar(c);
    assert b.Abs() == Queue(3, [], [x, a, c]);
    assert |b.Data()| == 3;
    b.Consume(1);
    assert |b.Data()| == 2;
  }

  /** A failing `prepare` can overwrite input: behind one consumed byte, "ac" becomes "cc". */
  method FailedPrepareLoses(x: byte, a: byte, c: byte) returns (before: seq<byte>, ok: bool, after: seq<byte>)
    ensures before == [a, c] && !ok && after == [c, c]
  {
    var b := OneTakenOfThree(x, a, c);
    before := b.Data();
    hide Shifted, Fits, Apply;
    ghost var was := b.buffer[..];
    ok := b.Prepare(2);
    after := b.Data();
    ShiftedThree(was, b.gnext, b.pnext, a, c);
  }

  lemma ShiftedThree(b: seq<byte>, gnext: nat, pnext: nat, a: byte, c: byte)
    requires gnext == 1 && pnext == 3 == |b| && b[1..3] == [a, c]
    ensures Shifted(b, gnext, pnext)[1..3] == [c, c]
  {
    assert b[1] == b[1..3][0] && b[2] == b[1..3][1];
  }
}
