/** The kernel's ring buffer: what is written comes out again in order, up to a capacity. */
module Ring {
  import opened Circular

  class RingBuffer<T(0)> {
    const buffer: array<T>
    var count: nat
    var head: nat
    var tail: nat
    /** Everything ever accepted by Write, and everything ever given out by Read. */
    ghost var accepted: seq<T>
    ghost var consumed: seq<T>

    /** What is in the buffer, oldest first. */
    ghost var contents: seq<T>

    ghost predicate Valid()
      reads this, buffer
    {
      && count == |contents| <= buffer.Length && accepted == consumed + contents
      && (if buffer.Length == 0 then head == 0 && tail == 0
          else tail < buffer.Length && head == Wrap(tail + count, buffer.Length) &&
               contents == Window(buffer[..], tail, count))
    }

    constructor (size: nat)
      ensures Valid() && contents == [] && buffer.Length == size
      ensures accepted == [] && consumed == [] && fresh(buffer)
    {
      buffer := new T[size];
      count, head, tail := 0, 0, 0;
      accepted, consumed, contents := [], [], [];
    }

    /** Accepts as much of the data as there is room for. */
    method Write(data: seq<T>) returns (written: nat)
      requires Valid()
      modifies this, buffer
      ensures Valid() && consumed == old(consumed)
      ensures written == if |data| <= buffer.Length - old(count) then |data| else buffer.Length - old(count)
      ensures contents == old(contents) + data[..written]
    {
      written := 0;
      while written < |data| && count != buffer.Length
        invariant Valid() && consumed == old(consumed) && written <= |data|
        invariant count == old(count) + written
        invariant contents == old(contents) + data[..written]
        decreases |data| - written
      {
        Put(data[written]);
        assert data[..written + 1] == data[..written] + [data[written]];
        written := written + 1;
      }
    }

    method Put(value: T)
      requires Valid() && count < buffer.Length
      modifies this, buffer
      ensures Valid() && consumed == old(consumed) && count == old(count) + 1
      ensures contents == old(contents) + [value]
    {
      WindowPush(buffer[..], tail, count, value);
      ghost var ring := buffer[..];
      buffer[head] := value;
      assert buffer[..] == ring[head := value];
      head := Next(head, buffer.Length);
      count := count + 1;
      accepted := accepted + [value];
      contents := contents + [value];
    }

    /** Gives out the oldest elements, as many as asked for and there. */
    method Read(n: nat) returns (data: seq<T>)
      requires Valid()
      modifies this
      ensures Valid() && accepted == old(accepted) && consumed == old(consumed) + data
      ensures |data| == if n <= old(count) then n else old(count)
      ensures old(contents) == data + contents
    {
      data := [];
      while |data| < n && count != 0
        invariant Valid() && accepted == old(accepted) && consumed == old(consumed) + data
        invariant |data| <= n && |data| + count == old(count)
        invariant old(contents) == data + contents
        decreases n - |data|
      {
        var value := Take();
        data := data + [value];
      }
    }

    method Take() returns (value: T)
      requires Valid() && count > 0
      modifies this
      ensures Valid() && accepted == old(accepted) && consumed == old(consumed) + [value]
      ensures count == old(count) - 1 && old(contents) == [value] + contents
    {
      WindowPop(buffer[..], tail, count);
      value := buffer[tail];
      tail := Next(tail, buffer.Length);
      count := count - 1;
      consumed := consumed + [value];
      contents := contents[1..];
    }

    /**
     Looks at the oldest elements without taking them. The loop does not watch the count:
     asked for more than there is, it goes on round the ring into old elements, unless the
     buffer is empty. So it shows what Read would give exactly when that does not happen.
     */
    method Peek(n: nat) returns (data: seq<T>)
      requires Valid()
      ensures data == if count == 0 then [] else Round(buffer[..], tail, n)
      ensures count > 0 ==> if n <= count then data == contents[..n] else contents < data
      ensures data == contents[..if n <= count then n else count] <==> n <= count || count == 0
    {
      data := Look(n);
      if count != 0 {
        PeekShows(buffer[..], tail, count, n);
      }
    }

    method Look(n: nat) returns (data: seq<T>)
      requires count > 0 ==> tail < buffer.Length
      ensures data == if count == 0 then [] else Round(buffer[..], tail, n)
    {
      data := [];
      var at: nat := tail;
      while |data| < n && count != 0
        invariant |data| <= n && (count == 0 ==> data == []) && (count > 0 ==> at < buffer.Length)
        invariant count > 0 ==> data + Round(buffer[..], at, n - |data|) == Round(buffer[..], tail, n)
        decreases n - |data|
      {
        ghost var rest := Round(buffer[..], at, n - |data|);
        data := data + [buffer[at]];
        at := Next(at, buffer.Length);
        assert rest == [data[|data| - 1]] + Round(buffer[..], at, n - |data|);
      }
    }

    method Count() returns (n: nat)
      requires Valid()
      ensures n == |accepted| - |consumed|
    {
      n := count;
    }

    method Free() returns (n: nat)
      requires Valid()
      ensures n + |contents| == buffer.Length
    {
      n := buffer.Length - count;
    }
  }

  lemma PeekShows<T>(ring: seq<T>, tail: nat, count: nat, n: nat)
    requires tail < |ring| && count <= |ring|
    ensures var contents := Window(ring, tail, count);
            if n <= count then Round(ring, tail, n) == contents[..n] else contents < Round(ring, tail, n)
  {
    RoundIsWindow(ring, tail, count);
    RoundPrefix(ring, tail, if n <= count then count else n, if n <= count then n else count);
  }
}
