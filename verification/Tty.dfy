/**
 The terminal buffer: a ring with a read and a write index and no count. Writing never
 stops, so a full turn makes the indexes meet and everything unread is gone.
 */
module Tty {
  import opened Circular

  // ---------------------------------------------------------------------
  // What writing leaves readable
  // ---------------------------------------------------------------------

  /** One byte written to a ring of `size`: the last free place makes it empty. */
  function Put(s: string, c: char, size: nat): string {
    if |s| + 1 == size then "" else s + [c]
  }

  function Written(s: string, input: string, size: nat): string
    decreases input
  {
    if input == "" then s else Written(Put(s, input[0], size), input[1..], size)
  }

  /** The last `n` bytes. */
  function Last(s: string, n: nat): string
    requires n <= |s|
  {
    s[|s| - n..]
  }

  lemma ModLess(m: nat, size: nat)
    requires size > 0
    ensures m % size <= m && m % size < size
    ensures m < size ==> m % size == m
    ensures (size + m) % size == m % size
  {
    ModTurn(m, size);
    ModAtMost(m, size);
  }

  lemma ModAtMost(m: nat, size: nat)
    requires size > 0
    ensures m % size <= m && m % size < size
    ensures m < size ==> m % size == m
  { }

  /** A whole turn more. */
  lemma ModTurn(m: nat, size: nat)
    requires size > 0
    ensures (size + m) % size == m % size
  {
    var q, r := m / size, m % size;
    var q', r' := (size + m) / size, (size + m) % size;
    assert m == q * size + r && size + m == q' * size + r';
    assert (q + 1) * size == q * size + size;
    if q' > q + 1 {
      MulAtLeast(q', q + 2, size);
      assert false;
    } else if q' < q + 1 {
      MulAtLeast(q, q', size);
      assert false;
    }
  }

  /** Readable afterwards are exactly the last bytes of old and new, as many as the turns leave over. */
  lemma {:induction false} WrittenIsLast(s: string, input: string, size: nat)
    requires |s| < size
    ensures (|s| + |input|) % size <= |s| + |input|
    ensures Written(s, input, size) == Last(s + input, (|s| + |input|) % size)
    decreases input
  {
    ModLess(|s| + |input|, size);
    if input == "" {
      assert s + input == s;
    } else {
      var c, rest := input[0], input[1..];
      WrittenIsLast(Put(s, c, size), rest, size);
      ModLess(|rest|, size);
      if |s| + 1 == size {
        LastOfRest(s + [c], rest, s + input, |rest| % size);
      } else {
        assert s + [c] + rest == s + input;
      }
    }
  }

  lemma LastOfRest(a: string, b: string, whole: string, n: nat)
    requires whole == a + b && n <= |b|
    ensures Last(whole, n) == Last("" + b, n)
  { }

  /** Nothing is lost exactly as long as there is room. */
  lemma WrittenIsAppend(s: string, input: string, size: nat)
    requires |s| < size
    ensures Written(s, input, size) == s + input <==> |s| + |input| < size
  {
    WrittenIsLast(s, input, size);
    ModLess(|s| + |input|, size);
  }

  lemma {:induction false} WrittenAppend(s: string, a: string, c: char, size: nat)
    ensures Written(s, a + [c], size) == Put(Written(s, a, size), c, size)
    decreases a
  {
    if a == "" {
      assert a + [c] == [c];
      assert [c][1..] == "";
    } else {
      assert (a + [c])[1..] == a[1..] + [c];
      WrittenAppend(Put(s, a[0], size), a[1..], c, size);
    }
  }

  lemma WrittenNext(s: string, input: string, k: nat, size: nat)
    requires k < |input|
    ensures Written(s, input[..k + 1], size) == Put(Written(s, input[..k], size), input[k], size)
  {
    assert input[..k + 1] == input[..k] + [input[k]];
    WrittenAppend(s, input[..k], input[k], size);
  }

  // ---------------------------------------------------------------------
  // The buffer
  // ---------------------------------------------------------------------

  class TerminalBuffer {
    const buffer: array<char>
    var readIndex: nat
    var writeIndex: nat
    /** The bytes that can be read. */
    ghost var contents: string

    ghost predicate Valid()
      reads this, buffer
    {
      && readIndex < buffer.Length && writeIndex < buffer.Length && |contents| < buffer.Length
      && writeIndex == Wrap(readIndex + |contents|, buffer.Length)
      && contents == Window(buffer[..], readIndex, |contents|)
    }

    constructor (size: nat)
      requires size > 0
      ensures Valid() && contents == "" && buffer.Length == size && fresh(buffer)
    {
      buffer := new char[size];
      readIndex, writeIndex, contents := 0, 0, "";
    }

    method Read(size: nat) returns (output: string)
      requires Valid()
      modifies this
      ensures Valid() && old(contents) == output + contents
      ensures |output| == if size <= |old(contents)| then size else |old(contents)|
    {
      output := "";
      while |output| < size && readIndex != writeIndex
        invariant Valid() && old(contents) == output + contents && |output| <= size
        decreases size - |output|
      {
        var c := TakeByte();
        output := output + [c];
      }
    }

    method TakeByte() returns (c: char)
      requires Valid() && readIndex != writeIndex
      modifies this
      ensures Valid() && old(contents) == [c] + contents
    {
      c := buffer[readIndex];
      WindowPop(buffer[..], readIndex, |contents|);
      contents := contents[1..];
      readIndex := Next(readIndex, buffer.Length);
    }

    method Write(input: string) returns (written: nat)
      requires Valid()
      modifies this, buffer
      ensures Valid() && written == |input|
      ensures contents == Written(old(contents), input, buffer.Length)
    {
      written := 0;
      while written < |input|
        invariant Valid() && written <= |input|
        invariant contents == Written(old(contents), input[..written], buffer.Length)
      {
        WrittenNext(old(contents), input, written, buffer.Length);
        PutByte(input[written]);
        written := written + 1;
      }
      assert input[..written] == input;
    }

    method PutByte(c: char)
      requires Valid()
      modifies this, buffer
      ensures Valid() && contents == Put(old(contents), c, buffer.Length)
    {
      WindowPush(buffer[..], readIndex, |contents|, c);
      ghost var ring := buffer[..];
      buffer[writeIndex] := c;
      assert buffer[..] == ring[writeIndex := c];
      writeIndex := Next(writeIndex, buffer.Length);
      contents := Put(contents, c, buffer.Length);
    }

    method DrainOutput()
      requires Valid()
      modifies this
      ensures Valid() && contents == ""
    {
      readIndex := writeIndex;
      contents := "";
    }

    method AvailableToRead() returns (n: nat)
      requires Valid()
      ensures n == |contents|
    {
      WrapIsMod(buffer.Length + writeIndex - readIndex, buffer.Length);
      n := (writeIndex - readIndex + buffer.Length) % buffer.Length;
    }

    /** One place always stays free. */
    method AvailableToWrite() returns (n: nat)
      requires Valid()
      ensures |contents| + n == buffer.Length - 1
    {
      var readable := AvailableToRead();
      n := buffer.Length - readable - 1;
    }
  }
}
