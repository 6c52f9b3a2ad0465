/** The circular buffer both UART directions share: LEN cells, an index where the
    next byte is stored and an index where the next byte is taken.  One cell is
    always left empty, so equal indices mean "empty". */
module Ring {

  type Byte = b: int | 0 <= b < 0x100

  function Next(i: nat, len: nat): (r: nat)
    requires i < len
    ensures r == (i + 1) % len
  {
    if i + 1 < len then i + 1 else 0
  }

  /** The bytes held between take index `out` and store index `into`, oldest first. */
  function Contents(buf: seq<Byte>, out: nat, into: nat): (r: seq<Byte>)
    requires out < |buf| && into < |buf|
  {
    if out <= into then buf[out..into] else buf[out..] + buf[..into]
  }

  /** How many bytes can be copied out in one piece: the reader's computation. */
  function ReadRun(into: nat, out: nat, len: nat): int {
    if into >= out then into - out else len - out
  }

  /** How many bytes can be copied in in one piece: the writer's computation. */
  function WriteRun(into: nat, out: nat, len: nat): int {
    if into < out then out - 1 - into
    else if out > 0 then len - into
    else len - 1 - into
  }

  // The occupancy is the index distance modulo LEN, and never LEN itself.
  lemma Occupancy(buf: seq<Byte>, out: nat, into: nat)
    requires out < |buf| && into < |buf|
    ensures |Contents(buf, out, into)| == if out <= into then into - out else |buf| - out + into
    ensures |Contents(buf, out, into)| < |buf|
    ensures into == (out + |Contents(buf, out, into)|) % |buf|
    ensures |Contents(buf, out, into)| == 0 <==> out == into
    ensures |Contents(buf, out, into)| == |buf| - 1 <==> Next(into, |buf|) == out
  {
    var c := |Contents(buf, out, into)|;
    if out <= into {
      assert out + c == into;
    } else {
      assert out + c == into + |buf|;
    }
  }

  lemma Wrap(i: nat, n: nat, len: nat)
    requires i < len && n <= len
    ensures (i + n) % len == if i + n < len then i + n else i + n - len
  {
  }

  // Storing one byte at the store index appends it, when the ring is not full.
  lemma Store(buf: seq<Byte>, out: nat, into: nat, b: Byte)
    requires out < |buf| && into < |buf| && Next(into, |buf|) != out
    ensures Contents(buf[into := b], out, Next(into, |buf|)) == Contents(buf, out, into) + [b]
  {
    Wrap(into, 1, |buf|);
    var c := buf[into := b];
    if out <= into && into + 1 == |buf| {
      assert c[out..] == buf[out..into] + [b];
      assert c[..0] == [];
    }
  }

  // Bytes copied out in one piece are the oldest ones, in order.
  lemma Take(buf: seq<Byte>, out: nat, into: nat, n: nat)
    requires out < |buf| && into < |buf| && n <= ReadRun(into, out, |buf|)
    ensures n <= |Contents(buf, out, into)| && out + n <= |buf|
    ensures Contents(buf, out, into)[..n] == buf[out..out + n]
    ensures Contents(buf, (out + n) % |buf|, into) == Contents(buf, out, into)[n..]
  {
    Wrap(out, n, |buf|);
  }

  lemma Pop(buf: seq<Byte>, out: nat, into: nat)
    requires out < |buf| && into < |buf| && out != into
    ensures Contents(buf, out, into) == [buf[out]] + Contents(buf, Next(out, |buf|), into)
  {
    Wrap(out, 1, |buf|);
    if out < into {
      assert buf[out..into] == [buf[out]] + buf[out + 1..into];
    } else {
      PopWrapped(buf, out, into);
    }
  }

  lemma PopWrapped(buf: seq<Byte>, out: nat, into: nat)
    requires into < out < |buf|
    ensures Contents(buf, out, into) == [buf[out]] + Contents(buf, Next(out, |buf|), into)
  {
    var first, rest, low := [buf[out]], buf[out + 1..], buf[..into];
    Wrap(out, 1, |buf|);
    assert buf[out..] == first + rest;
    assert first + rest + low == first + (rest + low);
    if out + 1 == |buf| {
      assert rest == [] && rest + low == buf[0..into];
    }
  }

  // Publishing a block copied behind the store index appends it.
  lemma Publish(buf: seq<Byte>, out: nat, into: nat, n: nat)
    requires out < |buf| && into < |buf| && n <= WriteRun(into, out, |buf|)
    ensures into + n <= |buf|
    ensures Contents(buf, out, (into + n) % |buf|) == Contents(buf, out, into) + buf[into..into + n]
  {
    var block, r := buf[into..into + n], if into + n < |buf| then into + n else into + n - |buf|;
    Wrap(into, n, |buf|);
    if into < out {
      assert buf[..r] == buf[..into] + block;
      assert buf[out..] + (buf[..into] + block) == buf[out..] + buf[..into] + block;
    } else if into + n == |buf| {
      assert buf[out..] == buf[out..into] + block;
    } else {
      assert buf[out..r] == buf[out..into] + block;
    }
  }

  // A store into a free cell does not disturb the held bytes.
  lemma StoreOutside(buf: seq<Byte>, out: nat, into: nat, k: nat, b: Byte)
    requires out < |buf| && into < |buf| && k < WriteRun(into, out, |buf|)
    ensures into + k < |buf|
    ensures Contents(buf[into + k := b], out, into) == Contents(buf, out, into)
  {
  }

  // The other side only ever makes a computed run longer.
  lemma RunsGrow(into: nat, out: nat, len: nat)
    requires into < len && out < len
    ensures Next(into, len) != out ==> ReadRun(into, out, len) <= ReadRun(Next(into, len), out, len)
    ensures into != out ==> WriteRun(into, out, len) <= WriteRun(into, Next(out, len), len)
  {
    Wrap(into, 1, len);
    Wrap(out, 1, len);
  }

  // Two offsets below LEN from the same index coincide exactly when they are equal.
  lemma OffsetsDistinct(i: nat, a: nat, b: nat, len: nat)
    requires i < len && a < len && b < len
    ensures (i + a) % len == (i + b) % len <==> a == b
  {
    Wrap(i, a, len);
    Wrap(i, b, len);
  }
}
