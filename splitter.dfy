/** The range splitter: `chunk_data` cuts the input into at most `parts`
    contiguous pieces, each cut made just after a needle byte found at or
    beyond `jump = |data| / parts` bytes into what is left. */
module Splitter {
  import opened Bytes

  /** The pieces glued back together, in order. */
  function Concat(chunks: seq<seq<byte>>): seq<byte>
  {
    if |chunks| == 0 then [] else chunks[0] + Concat(chunks[1..])
  }

  lemma {:induction false} ConcatAppend(chunks: seq<seq<byte>>, c: seq<byte>)
    ensures Concat(chunks + [c]) == Concat(chunks) + c
    decreases |chunks|
  {
    if |chunks| == 0 {
      assert [c][1..] == [];
    } else {
      assert (chunks + [c])[1..] == chunks[1..] + [c];
      ConcatAppend(chunks[1..], c);
    }
  }

  lemma FirstChunkIsPrefix(chunks: seq<seq<byte>>, rest: seq<byte>, data: seq<byte>)
    requires |chunks| > 0 && Concat(chunks) + rest == data
    ensures |chunks[0]| <= |data| && data[..|chunks[0]|] == chunks[0]
  {
    assert data == chunks[0] + (Concat(chunks[1..]) + rest);
  }

  /** A first piece longer than `jump` and ending in the needle shows that
      the input has a needle at or after `jump`. */
  lemma FirstCutHasNeedle(c: seq<byte>, data: seq<byte>, jump: nat, needle: byte)
    requires |c| <= |data| && data[..|c|] == c && |c| > jump && c[|c| - 1] == needle
    ensures |data| > jump && needle in data[jump..]
  {
    var n := |c|;
    assert data[n - 1] == data[..n][n - 1];
    assert data[jump..][n - 1 - jump] == data[n - 1];
  }

  /** A piece that is not the last one: longer than `jump`, ending in the
      needle, and the needle it ends in is the first one at or after `jump`. */
  predicate IsCut(chunk: seq<byte>, jump: nat, needle: byte)
  {
    |chunk| > jump && chunk[|chunk| - 1] == needle && needle !in chunk[jump..|chunk| - 1]
  }

  /** Cutting just after the first needle at or beyond `jump` gives a cut piece. */
  lemma CutAtFirstNeedle(rest: seq<byte>, jump: nat, needle: byte, offset: nat)
    requires |rest| > jump && IndexOf(rest[jump..], needle) == Some(offset)
    ensures IsCut(rest[..jump + offset + 1], jump, needle)
  {
    var chunk := rest[..jump + offset + 1];
    assert chunk[jump..|chunk| - 1] == rest[jump..][..offset];
  }

  /** Why no further cut was made in the last piece: the piece budget is
      used up, the rest is not longer than `jump`, or it has no needle after `jump`. */
  predicate Exhausted(count: nat, parts: nat, last: seq<byte>, jump: nat, needle: byte)
  {
    count == parts || |last| <= jump || needle !in last[jump..]
  }

  lemma DivBounds(n: nat, d: nat)
    requires d >= 1
    ensures 0 <= n / d <= n
  {
  }

  method ChunkData(data: seq<byte>, parts: nat, needle: byte) returns (chunks: seq<seq<byte>>)
    requires parts >= 1
    ensures 1 <= |chunks| <= parts
    ensures Concat(chunks) == data
    ensures forall i :: 0 <= i < |chunks| - 1 ==> IsCut(chunks[i], |data| / parts, needle)
    ensures Exhausted(|chunks|, parts, chunks[|chunks| - 1], |data| / parts, needle)
    ensures data == [] || parts == 1 ==> chunks == [data]
    ensures |data| <= |data| / parts || needle !in data[|data| / parts..] ==> chunks == [data]
  {
    chunks := [];
    DivBounds(|data|, parts);
    var jump: nat := |data| / parts;
    var rest := data;
    while |chunks| < parts - 1 && |rest| > jump && IndexOf(rest[jump..], needle).Some?
      invariant |chunks| <= parts - 1
      invariant Concat(chunks) + rest == data
      invariant forall i :: 0 <= i < |chunks| ==> IsCut(chunks[i], jump, needle)
      invariant chunks == [] ==> rest == data
      decreases |rest|
    {
      var offset := IndexOf(rest[jump..], needle).value;
      var chunk, tail := rest[..jump + offset + 1], rest[jump + offset + 1..];
      assert chunk + tail == rest;
      CutAtFirstNeedle(rest, jump, needle, offset);
      ConcatAppend(chunks, chunk);
      chunks := chunks + [chunk];
      rest := tail;
    }
    LastPiece(data, parts, needle, jump, chunks, rest);
    chunks := chunks + [rest];
  }

  /** What the loop of `ChunkData` leaves behind, once the remainder is pushed. */
  lemma LastPiece(data: seq<byte>, parts: nat, needle: byte, jump: nat, chunks: seq<seq<byte>>, rest: seq<byte>)
    requires parts >= 1 && |chunks| <= parts - 1
    requires Concat(chunks) + rest == data
    requires forall i :: 0 <= i < |chunks| ==> IsCut(chunks[i], jump, needle)
    requires chunks == [] ==> rest == data
    requires !(|chunks| < parts - 1 && |rest| > jump && IndexOf(rest[jump..], needle).Some?)
    ensures var all := chunks + [rest];
      && Concat(all) == data
      && (forall i :: 0 <= i < |all| - 1 ==> IsCut(all[i], jump, needle))
      && Exhausted(|all|, parts, rest, jump, needle)
      && (|data| <= jump || needle !in data[jump..] ==> chunks == [])
  {
    if chunks != [] {
      FirstChunkIsPrefix(chunks, rest, data);
      assert IsCut(chunks[0], jump, needle);
      FirstCutHasNeedle(chunks[0], data, jump, needle);
    }
    ConcatAppend(chunks, rest);
    var all := chunks + [rest];
    assert forall i :: 0 <= i < |all| - 1 ==> all[i] == chunks[i];
  }
}
