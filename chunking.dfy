/** Why the pieces `chunk_data` cuts at `\n` can be given to `process_chunk`
    one by one: when every empty line of the input is its last line, the
    records of the pieces, in order, are the records of the whole input.
    A non-empty line after an empty one can change what the pieces read. */
module Chunking {
  import opened Bytes
  import opened Splitter
  import opened Aggregator

  /** The records of each piece, in the order of the pieces. */
  function RecordsOfPieces(chunks: seq<seq<byte>>): seq<seq<byte>>
  {
    if |chunks| == 0 then [] else Records(chunks[0]) + RecordsOfPieces(chunks[1..])
  }

  /** Every empty line is the last line: no `\n` follows the `\n` of an empty
      line. Bytes after the last `\n` are unrestricted. */
  predicate BlankOnlyLast(data: seq<byte>)
  {
    forall p :: 0 <= p < |data| && data[p] == NEWLINE && (p == 0 || data[p - 1] == NEWLINE) ==>
      NEWLINE !in data[p + 1..]
  }

  lemma BlankAt(data: seq<byte>, p: nat)
    requires BlankOnlyLast(data)
    requires p < |data| && data[p] == NEWLINE && (p == 0 || data[p - 1] == NEWLINE)
    ensures NEWLINE !in data[p + 1..]
  {
  }

  /** What follows a cut after a `\n` keeps the property. */
  lemma BlankOnlyLastSuffix(c: seq<byte>, r: seq<byte>)
    requires BlankOnlyLast(c + r) && c != [] && c[|c| - 1] == NEWLINE
    ensures BlankOnlyLast(r)
  {
    var whole := c + r;
    forall p | 0 <= p < |r| && r[p] == NEWLINE && (p == 0 || r[p - 1] == NEWLINE)
      ensures NEWLINE !in r[p + 1..]
    {
      var q := |c| + p;
      assert whole[q] == r[p] && whole[q - 1] == NEWLINE;
      assert whole[q + 1..] == r[p + 1..];
    }
  }

  /** A first piece that holds an empty line ends with it: nothing after it
      holds a `\n`, and nothing after it is read. */
  lemma BlankEndsInput(c: seq<byte>, r: seq<byte>)
    requires BlankOnlyLast(c + r) && c != [] && c[|c| - 1] == NEWLINE && !WholeLines(c)
    ensures NEWLINE !in r && Records(c + r) == Records(c)
  {
    var p: nat;
    if c[0] == NEWLINE {
      p := 0;
    } else {
      p :| 0 < p < |c| && c[p - 1] == NEWLINE && c[p] == NEWLINE;
    }
    BlankIsLast(c, r, p);
    StopAfterBlank(c, r);
  }

  /** An empty line inside the first piece is that piece's last line, and
      nothing after the piece holds a `\n`. */
  lemma BlankIsLast(c: seq<byte>, r: seq<byte>, p: nat)
    requires BlankOnlyLast(c + r) && c != [] && c[|c| - 1] == NEWLINE
    requires p < |c| && c[p] == NEWLINE && (p == 0 || c[p - 1] == NEWLINE)
    ensures p == |c| - 1 && NEWLINE !in r
  {
    var whole := c + r;
    assert whole[p] == NEWLINE && (p == 0 || whole[p - 1] == NEWLINE);
    assert p < |c| - 1 ==> whole[p + 1..][|c| - 2 - p] == NEWLINE;
    BlankAt(whole, p);
    assert whole[|c|..] == r;
  }

  /** A piece whose last line is empty hides whatever follows it. */
  lemma StopAfterBlank(c: seq<byte>, r: seq<byte>)
    requires c != [] && c[|c| - 1] == NEWLINE && (|c| == 1 || c[|c| - 2] == NEWLINE)
    ensures Records(c + r) == Records(c)
  {
    var d := c[..|c| - 1];
    assert d == [] || d[|d| - 1] == NEWLINE;
    SplitLast(c);
    RecordsStopAtEmptyLine(d, r);
    RecordsStopAtEmptyLine(d, []);
    assert c == d + [NEWLINE] + [];
  }

  /** Pieces without any `\n` hold no records. */
  lemma {:induction false} NoNewlinePieces(chunks: seq<seq<byte>>)
    requires NEWLINE !in Concat(chunks)
    ensures RecordsOfPieces(chunks) == []
    decreases |chunks|
  {
    if |chunks| > 0 {
      assert Concat(chunks) == chunks[0] + Concat(chunks[1..]);
      forall j | 0 <= j < |chunks[0]| ensures chunks[0][j] != NEWLINE {
        assert Concat(chunks)[j] == chunks[0][j];
      }
      NoNewlinePieces(chunks[1..]);
    }
  }

  /** The pieces of an input whose empty lines are only its last line, each
      but the last ending in `\n` (as `ChunkData` guarantees with `NEWLINE`
      as the needle), hold between them exactly the records of the input. */
  lemma {:induction false} RecordsOfChunks(chunks: seq<seq<byte>>, jump: nat)
    requires BlankOnlyLast(Concat(chunks))
    requires forall i :: 0 <= i < |chunks| - 1 ==> IsCut(chunks[i], jump, NEWLINE)
    ensures Records(Concat(chunks)) == RecordsOfPieces(chunks)
    decreases |chunks|
  {
    if |chunks| > 0 {
      var first, others := chunks[0], chunks[1..];
      assert Concat(chunks) == first + Concat(others);
      if |chunks| == 1 {
        assert others == [];
        assert Concat(chunks) == first;
        assert RecordsOfPieces(chunks) == Records(first) + [];
      } else {
        assert IsCut(chunks[0], jump, NEWLINE);
        if WholeLines(first) {
          BlankOnlyLastSuffix(first, Concat(others));
          RecordsConcat(first, Concat(others));
          forall i | 0 <= i < |others| - 1 ensures IsCut(others[i], jump, NEWLINE) {
            assert others[i] == chunks[i + 1];
          }
          RecordsOfChunks(others, jump);
        } else {
          BlankEndsInput(first, Concat(others));
          NoNewlinePieces(others);
          assert RecordsOfPieces(chunks) == Records(first) + [];
        }
      }
    }
  }

  /** With an empty line before the end the split changes what is read:
      `A\n\nB\n` cut into two parts (`jump` is 5 / 2 = 2) gives `A\n\n` and
      `B\n`, pieces that meet every promise of `ChunkData`. The whole input
      has the one record `A`; the pieces have `A` and `B`. */
  lemma BlankLineBeforeEnd()
    ensures var data: seq<byte> := [65, NEWLINE, NEWLINE, 66, NEWLINE];
      var c1: seq<byte> := [65, NEWLINE, NEWLINE];
      var c2: seq<byte> := [66, NEWLINE];
      && |data| / 2 == 2 && Concat([c1, c2]) == data
      && IsCut(c1, 2, NEWLINE) && Exhausted(2, 2, c2, 2, NEWLINE)
      && Records(data) == [[65]]
      && RecordsOfPieces([c1, c2]) == [[65], [66]]
  {
    var data: seq<byte> := [65, NEWLINE, NEWLINE, 66, NEWLINE];
    var c1: seq<byte> := [65, NEWLINE, NEWLINE];
    var c2: seq<byte> := [66, NEWLINE];
    assert Concat([c1, c2]) == c1 + Concat([c2]);
    assert Concat([c2]) == c2 + Concat([]);
    assert data[..1] == c1[..1] == [65] && c2[..1] == [66];
    assert data[2..] == [NEWLINE, 66, NEWLINE] && c1[2..] == [NEWLINE];
    assert IndexOf(data, NEWLINE) == Some(1);
    assert IndexOf(data[2..], NEWLINE) == Some(0);
    assert IndexOf(c1, NEWLINE) == Some(1);
    assert IndexOf(c1[2..], NEWLINE) == Some(0);
    assert IndexOf(c2, NEWLINE) == Some(1);
    assert c2[2..] == [];
    assert RecordsOfPieces([c1, c2]) == Records(c1) + RecordsOfPieces([c2]);
    assert RecordsOfPieces([c2]) == Records(c2) + RecordsOfPieces([]);
  }
}
