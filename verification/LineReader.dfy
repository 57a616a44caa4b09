/**
  ufgets (include/Nova.c): one line read into a buffer that grows by 128 characters at a
  time. Allocation is taken to succeed.
  */
module LineReader {
  import opened ByteOrder

  const MAXLEN: nat := 128
  const NEWLINE: Byte := 10

  /** The characters of `data` from `from` up to the first newline or the end. */
  function Line(data: seq<Byte>, from: nat): (l: seq<Byte>)
    requires from <= |data|
    decreases |data| - from
  {
    if from == |data| || data[from] == NEWLINE then []
    else [data[from]] + Line(data, from + 1)
  }

  /** It is the longest newline-free stretch. */
  lemma {:induction false} LineIsUpToNewline(data: seq<Byte>, from: nat)
    requires from <= |data|
    ensures var l := Line(data, from);
            && from + |l| <= |data| && l == data[from..from + |l|]
            && 10 !in l
            && (from + |l| < |data| ==> data[from + |l|] == 10)
    decreases |data| - from
  {
    if from < |data| && data[from] != NEWLINE {
      LineIsUpToNewline(data, from + 1);
    }
  }

  datatype Char = EOF | Ch(b: Byte)

  class Stream {
    const data: seq<Byte>
    var next: nat

    ghost predicate Valid()
      reads this
    {
      next <= |data|
    }

    /** fgetc. */
    method Getc() returns (c: Char)
      requires Valid()
      modifies this
      ensures Valid()
      ensures old(next) == |data| ==> c == EOF && next == old(next)
      ensures old(next) < |data| ==> c == Ch(data[old(next)]) && next == old(next) + 1
    {
      if next == |data| {
        c := EOF;
      } else {
        c := Ch(data[next]);
        next := next + 1;
      }
    }
  }

  /** ufgets: the line, a terminator behind it, and one reallocation for every 128 characters. */
  method Ufgets(stream: Stream) returns (buffer: array<Byte>, ghost reallocations: nat)
    requires stream.Valid()
    modifies stream
    ensures stream.Valid() && fresh(buffer)
    ensures var line := Line(stream.data, old(stream.next));
            && |line| < buffer.Length && buffer[..|line|] == line && buffer[|line|] == 0
            && stream.next == (if old(stream.next) + |line| < |stream.data|
                               then old(stream.next) + |line| + 1 else |stream.data|)
    ensures reallocations == |Line(stream.data, old(stream.next))| / 128
    ensures buffer.Length == 128 * (reallocations + 1)
  {
    ghost var start, line := stream.next, Line(stream.data, stream.next);
    LineIsUpToNewline(stream.data, start);
    reallocations := 0;
    var size := MAXLEN;
    buffer := new Byte[size](_ => 0);
    var pos := 0;
    var ch := stream.Getc();
    while ch != Ch(NEWLINE) && ch != EOF
      invariant stream.Valid() && fresh(buffer) && buffer.Length == size
      invariant 0 <= pos < size && pos <= |line|
      invariant size == MAXLEN * (reallocations + 1) && size <= pos + MAXLEN
      invariant buffer[..pos] == line[..pos]
      invariant ch == if start + pos < |stream.data| then Ch(stream.data[start + pos]) else EOF
      invariant stream.next == if start + pos < |stream.data| then start + pos + 1 else |stream.data|
      decreases |line| - pos
    {
      assert pos < |line| && line[pos] == ch.b;
      buffer[pos] := ch.b;
      pos := pos + 1;
      assert buffer[..pos] == line[..pos];
      if pos == size {
        size := pos + MAXLEN;
        buffer := Grown(buffer, size);
        reallocations := reallocations + 1;
      }
      ch := stream.Getc();
    }
    assert pos == |line| && line[..pos] == line;
    buffer[pos] := 0;
  }

  /** realloc to a larger size. */
  method Grown(a: array<Byte>, size: nat) returns (b: array<Byte>)
    requires size >= a.Length
    ensures fresh(b) && b.Length == size && b[..a.Length] == a[..]
  {
    b := new Byte[size](_ => 0);
    forall i | 0 <= i < a.Length {
      b[i] := a[i];
    }
  }
}
