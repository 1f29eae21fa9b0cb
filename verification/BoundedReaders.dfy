/**
 The bounded stream readers of the TypeScript and the Java client: different loops over the same idea.
 Each returns the first `limit` bytes of the stream and signals overflow exactly when there is more,
 however the stream is cut into pieces.
 */
module BoundedReaders {
  import opened Bytes

  lemma {:induction false} FlattenPrefix<T>(chunks: seq<seq<T>>, n: nat)
    requires n <= |chunks|
    ensures Flatten(chunks[..n]) <= Flatten(chunks)
  {
    assert chunks == chunks[..n] + chunks[n..];
    FlattenAppend(chunks[..n], chunks[n..]);
  }

  lemma FlattenStep<T>(chunks: seq<seq<T>>, n: nat)
    requires n < |chunks|
    ensures Flatten(chunks[..n + 1]) == Flatten(chunks[..n]) + chunks[n]
  {
    assert chunks[..n + 1] == chunks[..n] + [chunks[n]];
    FlattenSnoc(chunks[..n], chunks[n]);
  }

  // ----- TypeScript: a reader of chunks, then one output array -----

  /** One result of the stream reader before it is done: a missing value counts as nothing. */
  datatype Chunk = Missing | Value(bytes: seq<Byte>)

  function BytesOf(c: Chunk): seq<Byte> {
    match c
    case Missing => []
    case Value(bytes) => bytes
  }

  function Stream(pulls: seq<Chunk>): seq<Byte> {
    if pulls == [] then [] else Stream(pulls[..|pulls| - 1]) + BytesOf(pulls[|pulls| - 1])
  }

  lemma {:induction false} StreamPrefix(pulls: seq<Chunk>, n: nat)
    requires n <= |pulls|
    ensures Stream(pulls[..n]) <= Stream(pulls)
    decreases |pulls| - n
  {
    if n == |pulls| {
      assert pulls[..n] == pulls;
    } else {
      StreamPrefix(pulls, n + 1);
      assert pulls[..n + 1][..n] == pulls[..n];
    }
  }

  /** A response body: the whole buffer at once, or a stream of reads. */
  datatype Body = Whole(bytes: seq<Byte>) | Reads(pulls: seq<Chunk>)

  function Content(body: Body): seq<Byte> {
    match body
    case Whole(bytes) => bytes
    case Reads(pulls) => Stream(pulls)
  }

  /**
   `readAtMost`: collect chunks up to the limit, cancel on the first that exceeds it, then copy them
   into one array. `consumed` counts the reads taken from the stream.
   */
  method ReadAtMost(body: Body, limit: nat) returns (output: array<Byte>, truncated: bool, consumed: nat)
    ensures fresh(output)
    ensures output[..] == Take(limit, Content(body))
    ensures truncated <==> |Content(body)| > limit
    ensures body.Reads? ==> consumed <= |body.pulls| && (!truncated ==> consumed == |body.pulls|)
    ensures body.Reads? && truncated ==>
      consumed > 0 && |Stream(body.pulls[..consumed - 1])| <= limit < |Stream(body.pulls[..consumed])|
  {
    match body {
      case Whole(source) =>
        var kept := if limit < |source| then limit else |source|;
        output := new Byte[kept](i requires 0 <= i < kept => source[i]);
        assert output[..] == source[..kept];
        truncated := |source| > limit;
        consumed := 0;
        return;
      case Reads(_) =>
    }
    var pulls := body.pulls;
    var chunks: seq<seq<Byte>> := [];
    var total := 0;
    truncated := false;
    consumed := 0;
    while consumed < |pulls|
      invariant consumed <= |pulls| && !truncated
      invariant Flatten(chunks) == Stream(pulls[..consumed]) && total == |Flatten(chunks)| <= limit
    {
      var value := pulls[consumed];
      consumed := consumed + 1;
      assert pulls[..consumed][..consumed - 1] == pulls[..consumed - 1];
      if value.Missing? {
        continue;
      }
      var remaining := limit - total;
      if |value.bytes| > remaining {
        ghost var before := chunks;
        if remaining > 0 {
          chunks := chunks + [value.bytes[..remaining]];
          FlattenSnoc(before, value.bytes[..remaining]);
        }
        assert Flatten(chunks) == Flatten(before) + value.bytes[..remaining];
        total := limit;
        truncated := true;
        StreamPrefix(pulls, consumed);
        break;
      }
      FlattenSnoc(chunks, value.bytes);
      chunks := chunks + [value.bytes];
      total := total + |value.bytes|;
    }
    assert !truncated ==> pulls[..consumed] == pulls;
    assert Flatten(chunks) == Take(limit, Stream(pulls));
    output := Assemble(chunks, total);
  }

  /** The reassembly loop: every byte is written once, at its offset, inside the array. */
  method Assemble(chunks: seq<seq<Byte>>, total: nat) returns (output: array<Byte>)
    requires total == |Flatten(chunks)|
    ensures fresh(output) && output[..] == Flatten(chunks)
  {
    output := new Byte[total](_ => 0);
    var offset := 0;
    for i := 0 to |chunks|
      invariant offset == |Flatten(chunks[..i])| <= total
      invariant output[..offset] == Flatten(chunks[..i])
    {
      FlattenStep(chunks, i);
      FlattenPrefix(chunks, i + 1);
      SetAt(output, chunks[i], offset);
      assert output[..offset + |chunks[i]|] == output[..offset] + chunks[i];
      offset := offset + |chunks[i]|;
    }
    assert chunks[..|chunks|] == chunks;
    assert output[..total] == output[..];
  }

  /** `output.set(chunk, offset)`. */
  method SetAt(output: array<Byte>, chunk: seq<Byte>, offset: nat)
    requires offset + |chunk| <= output.Length
    modifies output
    ensures output[offset..offset + |chunk|] == chunk
    ensures output[..offset] == old(output[..offset])
    ensures output[offset + |chunk|..] == old(output[offset + |chunk|..])
  {
    forall k | 0 <= k < |chunk| {
      output[offset + k] := chunk[k];
    }
  }

  datatype Outcome = Bytes(bytes: seq<Byte>) | TooLarge

  /**
   `readCapped`: the declared length refuses early, the stream refuses late; a missing or unreadable length
   is no refusal.
   */
  method ReadCapped(body: Body, declared: Option<int>, limit: nat) returns (r: Outcome)
    ensures r == if (declared.Some? && declared.value > limit) || |Content(body)| > limit then TooLarge
      else Bytes(Content(body))
  {
    if declared.Some? && declared.value > limit {
      return TooLarge;
    }
    var output, truncated, _ := ReadAtMost(body, limit);
    if truncated {
      return TooLarge;
    }
    return Bytes(output[..]);
  }

  // ----- Java: a reused buffer over an input stream -----

  /** An input stream: a read gives at least one byte unless the stream has ended, and how many is its own choice. */
  class InputStream {
    var rest: seq<Byte>

    constructor (bytes: seq<Byte>)
      ensures rest == bytes
    {
      rest := bytes;
    }

    method ReadInto(buffer: array<Byte>, length: nat) returns (count: int)
      requires 0 < length <= buffer.Length
      modifies this, buffer
      ensures old(rest) == [] ==> count == -1 && rest == []
      ensures old(rest) != [] ==> 1 <= count <= Min(length, |old(rest)|)
                                  && buffer[..count] == old(rest)[..count] && rest == old(rest)[count..]
    {
      if rest == [] {
        return -1;
      }
      var most := Min(length, |rest|);
      count :| 1 <= count <= most;
      assert count <= length && count <= |rest|;
      forall k | 0 <= k < count {
        buffer[k] := rest[k];
      }
      rest := rest[count..];
    }

    method ReadOne() returns (byte: int)
      modifies this
      ensures old(rest) == [] ==> byte == -1 && rest == []
      ensures old(rest) != [] ==> byte == old(rest)[0] && rest == old(rest)[1..]
    {
      if rest == [] {
        return -1;
      }
      byte := rest[0];
      rest := rest[1..];
    }
  }

  const BUFFER: nat := 8192

  /** `readBounded`: fill from the reused buffer until the limit, then look one byte further. */
  method ReadBounded(input: InputStream, limit: nat, failOnOverflow: bool) returns (r: Outcome)
    modifies input
    ensures r == if failOnOverflow && |old(input.rest)| > limit then TooLarge else Bytes(Take(limit, old(input.rest)))
    ensures input.rest == old(input.rest)[Min(limit + 1, |old(input.rest)|)..]
  {
    ghost var all := input.rest;
    var output: seq<Byte> := [];
    var buffer := new Byte[BUFFER];
    var remaining := limit;
    while remaining > 0
      invariant 0 <= remaining <= limit && |output| == limit - remaining
      invariant |output| <= |all| && output == all[..|output|] && input.rest == all[|output|..]
    {
      var read := input.ReadInto(buffer, Min(BUFFER, remaining));
      if read < 0 {
        return Bytes(output);
      }
      output := output + buffer[..read];
      remaining := remaining - read;
    }
    var next := input.ReadOne();
    if next != -1 && failOnOverflow {
      return TooLarge;
    }
    return Bytes(output);
  }
}
