/** The chunk aggregator `process_chunk`: it reads `\n`-terminated records,
    stops at the first empty one, splits each at its first `;`, decodes the
    temperature and folds it into a per-station table. */
module Aggregator {
  import opened Bytes
  import opened Tables
  import opened Decoder
  import opened Stats

  /** The two ways a record can be malformed. */
  datatype Error = NoSemicolon | InvalidNumber

  datatype Result<T> = Ok(value: T) | Err(error: Error)

  type Table = map<Key, Stat>

  // ---------------------------------------------------------------------
  // What a chunk holds.

  /** The records the aggregator reads: the complete lines before the first
      empty one. Bytes after the last `\n` are not part of any record. */
  function Records(data: seq<byte>): (r: seq<seq<byte>>)
    ensures 2 * |r| <= |data|
    decreases |data|
  {
    match IndexOf(data, NEWLINE)
    case None => []
    case Some(i) => if i == 0 then [] else [data[..i]] + Records(data[i + 1..])
  }

  /** No record is read exactly when the chunk holds no `\n` or starts with an empty line. */
  lemma RecordsEmpty(data: seq<byte>)
    ensures Records(data) == [] <==> NEWLINE !in data || (|data| > 0 && data[0] == NEWLINE)
  {
  }

  /** Each record followed by its `\n`, glued together. */
  function Framed(records: seq<seq<byte>>): seq<byte>
  {
    if |records| == 0 then [] else records[0] + [NEWLINE] + Framed(records[1..])
  }

  /** The records are non-empty and hold no `\n`. */
  lemma {:induction false} RecordsAreLines(data: seq<byte>)
    ensures forall i :: 0 <= i < |Records(data)| ==> Records(data)[i] != [] && NEWLINE !in Records(data)[i]
    decreases |data|
  {
    match IndexOf(data, NEWLINE)
    case None =>
    case Some(i) =>
      if i > 0 {
        RecordsAreLines(data[i + 1..]);
      }
  }

  /** Framed, the records are a prefix of the chunk; what follows that prefix
      holds no `\n` at all, or starts with the `\n` of an empty line. */
  lemma {:induction false} RecordsArePrefix(data: seq<byte>)
    ensures var n := |Framed(Records(data))|;
      && n <= |data| && data[..n] == Framed(Records(data))
      && (NEWLINE !in data[n..] || data[n] == NEWLINE)
    decreases |data|
  {
    match IndexOf(data, NEWLINE)
    case None =>
      assert data[0..] == data;
    case Some(i) =>
      if i > 0 {
        RecordsArePrefix(data[i + 1..]);
        PrefixStep(data, i);
      }
  }

  lemma PrefixStep(data: seq<byte>, i: nat)
    requires IndexOf(data, NEWLINE) == Some(i) && i > 0
    requires var rest := data[i + 1..]; var n := |Framed(Records(rest))|;
      && n <= |rest| && rest[..n] == Framed(Records(rest))
      && (NEWLINE !in rest[n..] || rest[n] == NEWLINE)
    ensures var n := |Framed(Records(data))|;
      && n <= |data| && data[..n] == Framed(Records(data))
      && (NEWLINE !in data[n..] || data[n] == NEWLINE)
  {
    var line, rest := data[..i], data[i + 1..];
    var rs := Records(rest);
    assert Records(data) == [line] + rs;
    assert ([line] + rs)[1..] == rs;
    var f := Framed(rs);
    assert Framed(Records(data)) == (line + [NEWLINE]) + f;
    SplitAround(data, i);
    SlicesOfConcat(line + [NEWLINE], rest, |f|);
  }

  /** Bytes after the last `\n` are never examined. */
  lemma {:induction false} RecordsIgnoreTail(data: seq<byte>, tail: seq<byte>)
    requires data == [] || data[|data| - 1] == NEWLINE
    requires NEWLINE !in tail
    ensures Records(data + tail) == Records(data)
    decreases |data|
  {
    if data == [] {
      assert data + tail == tail;
    } else {
      assert data[|data| - 1] in data;
      var i := IndexOf(data, NEWLINE).value;
      IndexOfPrefix(data, tail, NEWLINE);
      if i > 0 {
        ReadAcross(data, tail, i);
        var rest := data[i + 1..];
        assert rest == [] || rest[|rest| - 1] == data[|data| - 1];
        RecordsIgnoreTail(rest, tail);
      }
    }
  }

  /** Nothing after an empty line is read. */
  lemma {:induction false} RecordsStopAtEmptyLine(data: seq<byte>, rest: seq<byte>)
    requires data == [] || data[|data| - 1] == NEWLINE
    ensures Records(data + [NEWLINE] + rest) == Records(data)
    decreases |data|
  {
    var after := [NEWLINE] + rest;
    Associative(data, [NEWLINE], rest);
    if data == [] {
      assert data + after == after;
      IndexOfIsFirst(after, NEWLINE, 0);
    } else {
      assert data[|data| - 1] in data;
      var i := IndexOf(data, NEWLINE).value;
      IndexOfPrefix(data, after, NEWLINE);
      if i > 0 {
        ReadAcross(data, after, i);
        var tail := data[i + 1..];
        assert tail == [] || tail[|tail| - 1] == data[|data| - 1];
        RecordsStopAtEmptyLine(tail, rest);
        Associative(tail, [NEWLINE], rest);
      }
    }
  }

  /** Complete lines only, none of them empty: the shape of every piece
      of a well-formed input cut after a `\n`. */
  predicate WholeLines(data: seq<byte>)
  {
    && (data == [] || data[|data| - 1] == NEWLINE)
    && (data != [] ==> data[0] != NEWLINE)
    && forall j :: 0 < j < |data| && data[j - 1] == NEWLINE ==> data[j] != NEWLINE
  }

  /** Such a piece can be processed on its own: the records of the whole
      are the records of the piece followed by the records of what follows. */
  lemma {:induction false} RecordsConcat(data: seq<byte>, rest: seq<byte>)
    requires WholeLines(data)
    ensures Records(data + rest) == Records(data) + Records(rest)
    decreases |data|
  {
    if data == [] {
      assert data + rest == rest;
    } else {
      var i := FirstLine(data);
      RecordsConcat(data[i + 1..], rest);
      ReadAcross(data, rest, i);
      ConsAssociative(data[..i], Records(data[i + 1..]), Records(rest));
    }
  }

  /** A non-empty piece of whole lines starts with a record, and what
      follows that record is whole lines again. */
  lemma FirstLine(data: seq<byte>) returns (i: nat)
    requires WholeLines(data) && data != []
    ensures IndexOf(data, NEWLINE) == Some(i) && i > 0
    ensures Records(data) == [data[..i]] + Records(data[i + 1..])
    ensures WholeLines(data[i + 1..])
  {
    assert data[|data| - 1] in data;
    i := IndexOf(data, NEWLINE).value;
    var tail := data[i + 1..];
    forall j | 0 < j < |tail| && tail[j - 1] == NEWLINE ensures tail[j] != NEWLINE {
      assert tail[j - 1] == data[i + j] && tail[j] == data[i + 1 + j];
    }
    if tail != [] {
      assert tail[0] == data[i + 1];
      assert tail[|tail| - 1] == data[|data| - 1];
    }
  }

  /** The first record of a piece is also the first record of anything after
      which more bytes follow. */
  lemma ReadAcross(data: seq<byte>, rest: seq<byte>, i: nat)
    requires IndexOf(data, NEWLINE) == Some(i) && i > 0
    ensures Records(data + rest) == [data[..i]] + Records(data[i + 1..] + rest)
  {
    IndexOfPrefix(data, rest, NEWLINE);
    SliceOfConcat(data, rest, i);
    SliceOfConcat(data, rest, i + 1);
  }

  // ---------------------------------------------------------------------
  // What a record means.

  /** One record: the station is the bytes before the first `;`, the
      temperature the bytes after it. */
  function ParseLine(line: seq<byte>): (r: Result<(Key, int)>)
    ensures r.Ok? ==> |r.value.0| < |line| && line[|r.value.0|] == SEMICOLON
    ensures r.Ok? ==> -999 <= r.value.1 <= 999
  {
    match IndexOf(line, SEMICOLON)
    case None => Err(NoSemicolon)
    case Some(idx) =>
      match ParseNumber(line[idx + 1..])
      case None => Err(InvalidNumber)
      case Some(num) => Ok((line[..idx], num))
  }

  /** A record without `;` fails with `NoSemicolon`, and only such records do;
      a bad temperature fails with `InvalidNumber`; otherwise the station is
      the bytes before the first `;` and the temperature decodes from the
      bytes after it. */
  lemma ParseLineMeaning(line: seq<byte>)
    ensures ParseLine(line) == Err(NoSemicolon) <==> SEMICOLON !in line
    ensures ParseLine(line).Ok? ==> var k := ParseLine(line).value.0;
      && |k| < |line| && line[..|k|] == k && line[|k|] == SEMICOLON && SEMICOLON !in k
      && ParseNumber(line[|k| + 1..]) == Some(ParseLine(line).value.1)
    ensures ParseLine(line) == Err(InvalidNumber) ==>
      SEMICOLON in line && ParseNumber(line[IndexOf(line, SEMICOLON).value + 1..]).None?
  {
  }

  /** All records decoded in order, or the error of the first malformed one. */
  function ParseAll(records: seq<seq<byte>>): (r: Result<seq<(Key, int)>>)
    ensures r.Ok? ==> |r.value| == |records|
  {
    if |records| == 0 then Ok([])
    else
      match ParseAll(records[..|records| - 1])
      case Err(e) => Err(e)
      case Ok(pairs) =>
        match ParseLine(records[|records| - 1])
        case Err(e) => Err(e)
        case Ok(p) => Ok(pairs + [p])
  }

  /** Reading one more non-empty record from what is left. */
  lemma ReadRecord(data: seq<byte>, seen: seq<seq<byte>>, rest: seq<byte>, idx: nat)
    requires Records(data) == seen + Records(rest)
    requires IndexOf(rest, NEWLINE) == Some(idx) && idx > 0
    ensures Records(data) == (seen + [rest[..idx]]) + Records(rest[idx + 1..])
  {
    assert Records(rest) == [rest[..idx]] + Records(rest[idx + 1..]);
  }

  /** Decoding one more record after a run of well-formed ones. */
  lemma ParseNext(seen: seq<seq<byte>>, pairs: seq<(Key, int)>, line: seq<byte>)
    requires ParseAll(seen) == Ok(pairs)
    ensures ParseLine(line).Err? ==> ParseAll(seen + [line]) == Err(ParseLine(line).error)
    ensures ParseLine(line).Ok? ==> ParseAll(seen + [line]) == Ok(pairs + [ParseLine(line).value])
  {
    assert (seen + [line])[..|seen|] == seen;
  }

  /** Once a record is malformed, nothing after it matters. */
  lemma {:induction false} ParseAllFirstError(records: seq<seq<byte>>, more: seq<seq<byte>>)
    requires ParseAll(records).Err?
    ensures ParseAll(records + more) == ParseAll(records)
    decreases |more|
  {
    if |more| == 0 {
      assert records + more == records;
    } else {
      var init := more[..|more| - 1];
      assert (records + more)[..|records + more| - 1] == records + init;
      ParseAllFirstError(records, init);
    }
  }

  /** When every record is well formed, decoding succeeds and pair `i` is
      what record `i` decodes to. */
  lemma {:induction false} ParseAllSucceeds(records: seq<seq<byte>>)
    requires forall i :: 0 <= i < |records| ==> ParseLine(records[i]).Ok?
    ensures ParseAll(records).Ok?
    ensures forall i :: 0 <= i < |records| ==> ParseAll(records).value[i] == ParseLine(records[i]).value
    decreases |records|
  {
    if |records| > 0 {
      var init, last := records[..|records| - 1], records[|records| - 1];
      forall i | 0 <= i < |init| ensures ParseLine(init[i]).Ok? {
        assert init[i] == records[i];
      }
      ParseAllSucceeds(init);
      SplitLast(records);
      ParseOneMore(init, last);
    }
  }

  lemma ParseOneMore(init: seq<seq<byte>>, last: seq<byte>)
    requires ParseAll(init).Ok? && ParseLine(last).Ok?
    requires forall i :: 0 <= i < |init| ==> ParseLine(init[i]).Ok? && ParseAll(init).value[i] == ParseLine(init[i]).value
    ensures ParseAll(init + [last]).Ok?
    ensures forall i :: 0 <= i < |init| + 1 ==>
      ParseAll(init + [last]).value[i] == ParseLine((init + [last])[i]).value
  {
    var pairs, p := ParseAll(init).value, ParseLine(last).value;
    ParseNext(init, pairs, last);
    forall i | 0 <= i < |init| + 1
      ensures ParseAll(init + [last]).value[i] == ParseLine((init + [last])[i]).value
    {
      if i < |init| {
        assert (init + [last])[i] == init[i] && (pairs + [p])[i] == pairs[i];
      }
    }
  }

  /** Conversely, a successful decoding means every record is well formed. */
  lemma {:induction false} ParseAllOkParses(records: seq<seq<byte>>)
    requires ParseAll(records).Ok?
    ensures forall i :: 0 <= i < |records| ==> ParseLine(records[i]).Ok?
    decreases |records|
  {
    if |records| > 0 {
      var init, last := records[..|records| - 1], records[|records| - 1];
      SplitLast(records);
      OkBefore(init, last);
      ParseAllOkParses(init);
      forall i | 0 <= i < |records| ensures ParseLine(records[i]).Ok? {
        if i < |init| {
          assert records[i] == init[i];
        }
      }
    }
  }

  lemma OkBefore(init: seq<seq<byte>>, last: seq<byte>)
    requires ParseAll(init + [last]).Ok?
    ensures ParseAll(init).Ok? && ParseLine(last).Ok?
  {
    assert (init + [last])[..|init|] == init;
  }

  /** When record `i` is the first malformed one, decoding fails with its error. */
  lemma ParseAllFirstFailure(records: seq<seq<byte>>, i: nat)
    requires i < |records| && ParseLine(records[i]).Err?
    requires forall j :: 0 <= j < i ==> ParseLine(records[j]).Ok?
    ensures ParseAll(records) == Err(ParseLine(records[i]).error)
  {
    var before, bad := records[..i], records[i];
    forall j | 0 <= j < |before| ensures ParseLine(before[j]).Ok? {
      assert before[j] == records[j];
    }
    ParseAllSucceeds(before);
    FailAfter(before, bad, records[i + 1..]);
    SplitAround(records, i);
  }

  lemma FailAfter(before: seq<seq<byte>>, bad: seq<byte>, more: seq<seq<byte>>)
    requires ParseAll(before).Ok? && ParseLine(bad).Err?
    ensures ParseAll((before + [bad]) + more) == Err(ParseLine(bad).error)
  {
    ParseNext(before, ParseAll(before).value, bad);
    ParseAllFirstError(before + [bad], more);
  }

  // ---------------------------------------------------------------------
  // What a table means.

  /** `table` holds, for each station in `pairs`, the statistics of exactly
      the temperatures recorded for it, and nothing else. */
  ghost predicate Tabulates(table: Table, pairs: seq<(Key, int)>)
  {
    && table.Keys == KeysOf(pairs)
    && forall k :: k in table ==> ValuesFor(pairs, k) != [] && table[k] == Summary(ValuesFor(pairs, k))
  }

  /** A record for a station already in the table: `update` its entry. */
  lemma TabulateUpdate(table: Table, pairs: seq<(Key, int)>, k: Key, v: int)
    requires Tabulates(table, pairs) && k in table
    ensures Tabulates(table[k := table[k].Update(v)], pairs + [(k, v)])
  {
    var table', pairs' := table[k := table[k].Update(v)], pairs + [(k, v)];
    KeysOfAppend(pairs, k, v);
    forall j | j in table' ensures ValuesFor(pairs', j) != [] && table'[j] == Summary(ValuesFor(pairs', j)) {
      ValuesForAppend(pairs, k, v, j);
      if j == k {
        UpdateSummary(ValuesFor(pairs, k), v);
      } else {
        assert ValuesFor(pairs', j) == ValuesFor(pairs, j) + [];
        assert ValuesFor(pairs, j) + [] == ValuesFor(pairs, j);
        assert j in table && table'[j] == table[j];
      }
    }
  }

  /** A record for a new station: its entry starts as `Stat::new`. */
  lemma TabulateInsert(table: Table, pairs: seq<(Key, int)>, k: Key, v: int)
    requires Tabulates(table, pairs) && k !in table
    ensures Tabulates(table[k := Stat.New(v)], pairs + [(k, v)])
  {
    var table', pairs' := table[k := Stat.New(v)], pairs + [(k, v)];
    KeysOfAppend(pairs, k, v);
    ValuesForNonEmpty(pairs, k);
    ValuesForAppend(pairs, k, v, k);
    assert ValuesFor(pairs', k) == [v];
    forall j | j in table' && j != k ensures ValuesFor(pairs', j) != [] && table'[j] == Summary(ValuesFor(pairs', j)) {
      ValuesForAppend(pairs, k, v, j);
      assert ValuesFor(pairs', j) == ValuesFor(pairs, j) + [];
      assert ValuesFor(pairs, j) + [] == ValuesFor(pairs, j);
      assert j in table && table'[j] == table[j];
    }
  }

  // ---------------------------------------------------------------------
  // The loop.

  /** `process_chunk`: the number of records read and the per-station table,
      or the error of the first malformed record. */
  method ProcessChunk(data: seq<byte>) returns (r: Result<(nat, Table)>)
    ensures ParseAll(Records(data)).Err? ==> r == Err(ParseAll(Records(data)).error)
    ensures ParseAll(Records(data)).Ok? ==>
      && r.Ok? && r.value.0 == |Records(data)|
      && Tabulates(r.value.1, ParseAll(Records(data)).value)
  {
    var results: Table := map[];
    var total: nat := 0;
    var rest := data;
    ghost var seen: seq<seq<byte>> := [];
    ghost var pairs: seq<(Key, int)> := [];
    ghost var stopped := false;
    while IndexOf(rest, NEWLINE).Some?
      invariant Records(data) == seen + Records(rest)
      invariant ParseAll(seen) == Ok(pairs)
      invariant total == |seen|
      invariant Tabulates(results, pairs)
      decreases |rest|
    {
      var idx := IndexOf(rest, NEWLINE).value;
      var line := rest[..idx];
      ghost var unread := rest;
      rest := rest[idx + 1..];
      if |line| == 0 {
        assert Records(unread) == [];
        assert Records(data) == seen + [] == seen;
        stopped := true;
        break;
      }
      total := total + 1;
      ReadRecord(data, seen, unread, idx);
      ParseNext(seen, pairs, line);
      ghost var seen' := seen + [line];
      match ParseLine(line)
      case Err(e) =>
        ParseAllFirstError(seen', Records(rest));
        assert Records(data) == seen' + Records(rest);
        return Err(e);
      case Ok((before, num)) =>
        if before in results {
          TabulateUpdate(results, pairs, before, num);
          results := results[before := results[before].Update(num)];
        } else {
          TabulateInsert(results, pairs, before, num);
          results := results[before := Stat.New(num)];
        }
        seen, pairs := seen', pairs + [(before, num)];
    }
    if !stopped {
      assert Records(rest) == [];
      assert Records(data) == seen + [] == seen;
    }
    r := Ok((total, results));
  }
}
