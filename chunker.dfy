/**
  `chunk_content(in_df, chunk_size)`: every row of a table becomes one row
  per chunk of its "content" text, carrying the chunk, its index within the
  row ("chunk_id") and every other field of the source row.
 */
module Chunker {
  import opened Wrappers
  import opened Records
  import opened Chunking

  /** The Python exceptions the function can raise. */
  datatype Error =
    | KeyError(key: Key)  // `row["content"]` on a row without that field
    | TypeError           // `len(content)` on a value that is not text
    | ValueError          // `range(0, len(content), 0)`: a zero step

  type Table = seq<Record>

  const CONTENT: Key := "content"
  const CHUNK_ID: Key := "chunk_id"

  /** The text of a row's "content" field, or "" when it has none. */
  function TextContent(row: Record): string
  {
    match Lookup(row, CONTENT)
    case Some(Str(s)) => s
    case _ => []
  }

  predicate HasTextContent(row: Record)
  {
    var v := Lookup(row, CONTENT);
    v.Some? && v.value.Str?
  }

  /** The "content" text of each row, in order. */
  function Texts(t: Table): seq<string>
  {
    seq(|t|, i requires 0 <= i < |t| => TextContent(t[i]))
  }

  /**
    The output row for chunk number `id` of `row`:
    `{**{"content": chunk, "chunk_id": id}, **old_fields}` where `old_fields`
    is the row with "content" popped.
   */
  function ChunkRecord(chunk: string, id: nat, row: Record): Record
  {
    Merge([(CONTENT, Str(chunk)), (CHUNK_ID, Int(id))], Remove(row, CONTENT))
  }

  /** One output row per chunk, numbered from 0: the zip of the chunk list with `range(len(chunks))`. */
  function RowRecords(row: Record, chunks: seq<string>): seq<Record>
  {
    seq(|chunks|, k requires 0 <= k < |chunks| => ChunkRecord(chunks[k], k, row))
  }

  /**
    What one iteration of the outer loop adds to the output, or the exception
    it raises: a missing field, a content that has no length, a zero step.
    A negative step gives an empty range and so no rows.
   */
  function ChunkRow(row: Record, chunkSize: int): Result<seq<Record>, Error>
  {
    match Lookup(row, CONTENT)
    case None => Err(KeyError(CONTENT))
    case Some(v) =>
      if !v.Str? then Err(TypeError)
      else if chunkSize == 0 then Err(ValueError)
      else if chunkSize < 0 then Ok([])
      else Ok(RowRecords(row, Chunks(v.s, chunkSize)))
  }

  /** The whole call: the rows of each source row in input order, or the first exception raised. */
  function ChunkTable(t: Table, chunkSize: int): Result<Table, Error>
  {
    if t == [] then Ok([])
    else
      match ChunkRow(t[0], chunkSize)
      case Err(e) => Err(e)
      case Ok(rs) =>
        match ChunkTable(t[1..], chunkSize)
        case Err(e) => Err(e)
        case Ok(rest) => Ok(rs + rest)
  }

  /** Number of chunks of each row, summed: ceil(len(content) / n) per row. */
  function TotalChunks(t: Table, n: nat): nat
    requires n > 0
  {
    if t == [] then 0 else (|TextContent(t[0])| + n - 1) / n + TotalChunks(t[1..], n)
  }

  /**
    The outer loop of the function: it runs over the rows in order, raises
    the exception of the first row that fails, and otherwise lets the inner
    loop append one merged row per chunk. The input is a value and is left
    as it is; the result is a new table.
   */
  method ChunkContent(table: Table, chunkSize: int := 500) returns (res: Result<Table, Error>)
    ensures res == ChunkTable(table, chunkSize)
  {
    var out: Table := [];
    var i := 0;
    while i < |table|
      invariant 0 <= i <= |table|
      invariant ChunkTable(table[..i], chunkSize) == Ok(out)
    {
      var row := table[i];
      var content := Lookup(row, CONTENT);
      if content.None? {
        ChunkTableStopsAt(table, i, chunkSize);
        return Err(KeyError(CONTENT));
      }
      if !content.value.Str? {
        ChunkTableStopsAt(table, i, chunkSize);
        return Err(TypeError);
      }
      if chunkSize == 0 {
        ChunkTableStopsAt(table, i, chunkSize);
        return Err(ValueError);
      }
      var chunks := if chunkSize > 0 then Chunks(content.value.s, chunkSize) else [];
      out := AppendChunkRecords(out, row, chunks);
      assert ChunkRow(row, chunkSize) == Ok(RowRecords(row, chunks)) by {
        if chunkSize < 0 {
          assert RowRecords(row, chunks) == [];
        }
      }
      ChunkTablePrefixStep(table, i, chunkSize);
      i := i + 1;
    }
    assert table[..i] == table;
    res := Ok(out);
  }

  /** The inner loop: one merged row per chunk, numbered from 0, appended to `out`. */
  method AppendChunkRecords(out: Table, row: Record, chunks: seq<string>) returns (res: Table)
    ensures res == out + RowRecords(row, chunks)
  {
    res := out;
    var j := 0;
    while j < |chunks|
      invariant 0 <= j <= |chunks|
      invariant res == out + RowRecords(row, chunks)[..j]
    {
      var newFields := [(CONTENT, Str(chunks[j])), (CHUNK_ID, Int(j))];
      var oldFields := Remove(row, CONTENT);
      var record := Merge(newFields, oldFields);
      assert record == RowRecords(row, chunks)[j];
      PrefixSnoc(RowRecords(row, chunks), j);
      AppendAssoc(out, RowRecords(row, chunks)[..j], record);
      res := res + [record];
      j := j + 1;
    }
    assert RowRecords(row, chunks)[..j] == RowRecords(row, chunks);
  }

  lemma AppendAssoc(a: Table, b: Table, x: Record)
    ensures (a + b) + [x] == a + (b + [x])
  {
  }

  lemma PrefixSnoc(s: seq<Record>, j: nat)
    requires j < |s|
    ensures s[..j + 1] == s[..j] + [s[j]]
  {
  }

  /** A prefix that succeeds, extended by one row that succeeds, gives the prefix's rows and then that row's. */
  lemma ChunkTablePrefixStep(t: Table, i: nat, n: int)
    requires i < |t| && ChunkTable(t[..i], n).Ok? && ChunkRow(t[i], n).Ok?
    ensures ChunkTable(t[..i + 1], n) == Ok(ChunkTable(t[..i], n).value + ChunkRow(t[i], n).value)
  {
    assert t[..i + 1] == t[..i] + [t[i]];
    ChunkTableAppend(t[..i], [t[i]], n);
    ChunkTableSingle(t[i], n);
  }

  /** Running on two tables one after the other is running on their concatenation. */
  lemma {:induction false} ChunkTableAppend(a: Table, b: Table, n: int)
    ensures ChunkTable(a + b, n) ==
      match ChunkTable(a, n)
      case Err(e) => Err(e)
      case Ok(x) => (match ChunkTable(b, n) case Err(e) => Err(e) case Ok(y) => Ok(x + y))
    decreases |a|
  {
    if a != [] {
      assert (a + b)[0] == a[0] && (a + b)[1..] == a[1..] + b;
      ChunkTableAppend(a[1..], b, n);
      match ChunkRow(a[0], n)
      case Err(_) =>
      case Ok(rs) =>
        match ChunkTable(a[1..], n)
        case Err(_) =>
        case Ok(x) =>
          match ChunkTable(b, n)
          case Err(_) =>
          case Ok(y) => assert rs + (x + y) == (rs + x) + y;
    } else {
      assert a + b == b;
      match ChunkTable(b, n)
      case Err(_) =>
      case Ok(y) => assert [] + y == y;
    }
  }

  /** When rows before `i` succeed and row `i` fails, the call raises row `i`'s exception. */
  lemma ChunkTableStopsAt(t: Table, i: nat, n: int)
    requires i < |t| && ChunkTable(t[..i], n).Ok? && ChunkRow(t[i], n).Err?
    ensures ChunkTable(t, n) == Err(ChunkRow(t[i], n).error)
  {
    assert t == t[..i] + t[i..];
    assert t[i..][0] == t[i];
    ChunkTableAppend(t[..i], t[i..], n);
  }

  /**
    The call succeeds exactly when every row has a text "content" and the
    chunk size is not zero; with a zero chunk size only the empty table
    succeeds, since no `range` is ever built.
   */
  lemma {:induction false} ChunkTableSucceeds(t: Table, n: int)
    ensures ChunkTable(t, n).Ok? <==> (forall i :: 0 <= i < |t| ==> HasTextContent(t[i])) && (n != 0 || t == [])
    decreases |t|
  {
    if t != [] {
      ChunkTableSucceeds(t[1..], n);
      assert ChunkRow(t[0], n).Ok? <==> HasTextContent(t[0]) && n != 0;
      assert (forall i :: 0 <= i < |t| ==> HasTextContent(t[i])) <==>
             HasTextContent(t[0]) && (forall i :: 0 <= i < |t[1..]| ==> HasTextContent(t[1..][i])) by {
        assert forall i :: 0 < i < |t| ==> t[i] == t[1..][i - 1];
      }
    }
  }

  /**
    The exception raised is that of the first failing row: every row before
    it succeeds and nothing after it is looked at.
   */
  lemma {:induction false} ChunkTableFirstError(t: Table, n: int)
    requires ChunkTable(t, n).Err?
    ensures exists i :: 0 <= i < |t| && (forall j :: 0 <= j < i ==> ChunkRow(t[j], n).Ok?)
                        && ChunkRow(t[i], n) == Err(ChunkTable(t, n).error)
    decreases |t|
  {
    if ChunkRow(t[0], n).Err? {
      assert ChunkRow(t[0], n) == Err(ChunkTable(t, n).error);
    } else {
      ChunkTableFirstError(t[1..], n);
      var i :| 0 <= i < |t[1..]| && (forall j :: 0 <= j < i ==> ChunkRow(t[1..][j], n).Ok?)
               && ChunkRow(t[1..][i], n) == Err(ChunkTable(t[1..], n).error);
      assert ChunkRow(t[i + 1], n) == Err(ChunkTable(t, n).error);
      forall j | 0 <= j < i + 1
        ensures ChunkRow(t[j], n).Ok?
      {
        if j > 0 {
          assert t[j] == t[1..][j - 1];
        }
      }
    }
  }

  /** A negative chunk size makes every `range` empty, so the output has no rows. */
  lemma {:induction false} ChunkTableNegativeSize(t: Table, n: int)
    requires n < 0 && ChunkTable(t, n).Ok?
    ensures ChunkTable(t, n) == Ok([])
    decreases |t|
  {
    if t != [] {
      assert ChunkRow(t[0], n) == Ok([]);
      assert ChunkTable(t[1..], n).Ok?;
      ChunkTableNegativeSize(t[1..], n);
      var none: Table := [];
      assert ChunkTable(t, n) == Ok(none + none);
      assert none + none == none;
    }
  }

  /**
    One output row: its "content" is the chunk, not the source text; its
    "chunk_id" is the index unless the source row has a "chunk_id" of its
    own, whose value wins because the old fields are spread last; every
    other field is the source row's; the keys are "content", "chunk_id",
    then the other source keys in order, all distinct.
   */
  lemma ChunkRecordFields(chunk: string, id: nat, row: Record)
    requires Distinct(Keys(row))
    ensures Lookup(ChunkRecord(chunk, id, row), CONTENT) == Some(Str(chunk))
    ensures Lookup(ChunkRecord(chunk, id, row), CHUNK_ID) ==
            if CHUNK_ID in Keys(row) then Lookup(row, CHUNK_ID) else Some(Int(id))
    ensures forall k :: k != CONTENT && k != CHUNK_ID ==> Lookup(ChunkRecord(chunk, id, row), k) == Lookup(row, k)
    ensures Keys(ChunkRecord(chunk, id, row)) == [CONTENT, CHUNK_ID] + Without(Keys(row), [CONTENT, CHUNK_ID])
    ensures Distinct(Keys(ChunkRecord(chunk, id, row)))
  {
    var newFields: Record := [(CONTENT, Str(chunk)), (CHUNK_ID, Int(id))];
    var oldFields := Remove(row, CONTENT);
    assert Keys(newFields) == [CONTENT, CHUNK_ID];
    assert Distinct(Keys(newFields));
    assert Distinct(Keys(oldFields));
    MergeFields(newFields, oldFields);
    WithoutTwice(Keys(row), [CONTENT], [CONTENT, CHUNK_ID]);
    assert Keys(ChunkRecord(chunk, id, row)) == Keys(newFields) + Without(Keys(oldFields), Keys(newFields));
    assert Keys(oldFields) == Without(Keys(row), [CONTENT]);
    assert CHUNK_ID in Keys(oldFields) <==> CHUNK_ID in Keys(row);
    assert Lookup(oldFields, CHUNK_ID) == Lookup(row, CHUNK_ID);
    assert Lookup(newFields, CHUNK_ID) == Some(Int(id)) by {
      assert newFields[1..] == [(CHUNK_ID, Int(id))];
    }
  }

  /** A source row with text `c` and a positive chunk size gives ceil(|c| / n) rows, none when `c` is empty. */
  lemma ChunkRowCount(row: Record, n: int)
    requires HasTextContent(row) && n > 0
    ensures ChunkRow(row, n).Ok?
    ensures |ChunkRow(row, n).value| == (|TextContent(row)| + n - 1) / n
    ensures ChunkRow(row, n).value == [] <==> TextContent(row) == []
  {
    ChunksCount(TextContent(row), n);
  }

  /**
    Row `k` produced for a source row holds chunk `k` of the text as its
    content and `k` as its chunk_id (unless the source row brings its
    own), carries every other field of the source row, and has the same
    key order as every other row produced for it.
   */
  lemma ChunkRowFields(row: Record, n: int, k: nat)
    requires Distinct(Keys(row)) && HasTextContent(row) && n > 0
    requires k < |ChunkRow(row, n).value|
    ensures Lookup(ChunkRow(row, n).value[k], CONTENT) == Some(Str(Chunks(TextContent(row), n)[k]))
    ensures Lookup(ChunkRow(row, n).value[k], CHUNK_ID) ==
            if CHUNK_ID in Keys(row) then Lookup(row, CHUNK_ID) else Some(Int(k))
    ensures forall key :: key != CONTENT && key != CHUNK_ID ==> Lookup(ChunkRow(row, n).value[k], key) == Lookup(row, key)
    ensures Keys(ChunkRow(row, n).value[k]) == [CONTENT, CHUNK_ID] + Without(Keys(row), [CONTENT, CHUNK_ID])
  {
    var chunks := Chunks(TextContent(row), n);
    assert ChunkRow(row, n).value[k] == ChunkRecord(chunks[k], k, row);
    ChunkRecordFields(chunks[k], k, row);
  }

  /** The contents of the rows produced for one source row, joined, give back its text exactly. */
  lemma ChunkRowTexts(row: Record, n: int)
    requires Distinct(Keys(row)) && HasTextContent(row) && n > 0
    ensures ChunkRow(row, n).Ok?
    ensures Flatten(Texts(ChunkRow(row, n).value)) == TextContent(row)
  {
    var c := TextContent(row);
    var chunks := Chunks(c, n);
    var rs := ChunkRow(row, n).value;
    forall k | 0 <= k < |rs|
      ensures Texts(rs)[k] == chunks[k]
    {
      ChunkRowFields(row, n, k);
    }
    assert Texts(rs) == chunks;
    ChunksPartition(c, n);
  }

  /** The number of output rows that come before those of source row `i`. */
  function Offset(t: Table, n: nat, i: nat): nat
    requires n > 0 && i <= |t|
  {
    TotalChunks(t[..i], n)
  }

  /** For a positive chunk size the output has one row per chunk: ceil(len(content) / n) for each source row, summed. */
  lemma {:induction false} ChunkTableCount(t: Table, n: int)
    requires n > 0 && ChunkTable(t, n).Ok?
    ensures |ChunkTable(t, n).value| == TotalChunks(t, n)
    decreases |t|
  {
    if t != [] {
      assert ChunkRow(t[0], n).Ok? && ChunkTable(t[1..], n).Ok?;
      ChunkRowCount(t[0], n);
      ChunkTableCount(t[1..], n);
    }
  }

  /**
    Output layout for a positive chunk size: the rows produced for source
    row `i` form one contiguous block of the output, starting right after
    the rows of all earlier source rows, so blocks never interleave and
    keep the input order.
   */
  lemma ChunkTableBlock(t: Table, n: int, i: nat)
    requires n > 0 && ChunkTable(t, n).Ok? && i < |t|
    ensures ChunkRow(t[i], n).Ok?
    ensures Offset(t, n, i) + |ChunkRow(t[i], n).value| <= |ChunkTable(t, n).value|
    ensures ChunkTable(t, n).value[Offset(t, n, i)..Offset(t, n, i) + |ChunkRow(t[i], n).value|]
            == ChunkRow(t[i], n).value
  {
    assert t == t[..i] + ([t[i]] + t[i + 1..]);
    ChunkTableMiddle(t[..i], t[i], t[i + 1..], n);
  }

  /** In a run over `a + [row] + b`, the rows of `row` come right after the rows of `a`. */
  lemma ChunkTableMiddle(a: Table, row: Record, b: Table, n: int)
    requires n > 0 && ChunkTable(a + ([row] + b), n).Ok?
    ensures ChunkRow(row, n).Ok? && ChunkTable(a, n).Ok?
    ensures |ChunkTable(a, n).value| == TotalChunks(a, n)
    ensures TotalChunks(a, n) + |ChunkRow(row, n).value| <= |ChunkTable(a + ([row] + b), n).value|
    ensures ChunkTable(a + ([row] + b), n).value[TotalChunks(a, n)..TotalChunks(a, n) + |ChunkRow(row, n).value|]
            == ChunkRow(row, n).value
  {
    ChunkTableSplit(a, [row] + b, n);
    ChunkTableCons(row, b, n);
    ChunkTableCount(a, n);
    SliceMiddle(ChunkTable(a, n).value, ChunkRow(row, n).value, ChunkTable(b, n).value);
  }

  /** A successful run over `[row] + b` is the rows of `row` followed by the run over `b`. */
  lemma ChunkTableCons(row: Record, b: Table, n: int)
    requires ChunkTable([row] + b, n).Ok?
    ensures ChunkRow(row, n).Ok? && ChunkTable(b, n).Ok?
    ensures ChunkTable([row] + b, n).value == ChunkRow(row, n).value + ChunkTable(b, n).value
  {
    assert ([row] + b)[0] == row && ([row] + b)[1..] == b;
  }

  lemma SliceMiddle(x: Table, y: Table, z: Table)
    ensures (x + (y + z))[|x|..|x| + |y|] == y
  {
  }

  /** A successful run over a concatenation is a successful run over each part, the outputs concatenated. */
  lemma ChunkTableSplit(a: Table, b: Table, n: int)
    requires ChunkTable(a + b, n).Ok?
    ensures ChunkTable(a, n).Ok? && ChunkTable(b, n).Ok?
    ensures ChunkTable(a + b, n).value == ChunkTable(a, n).value + ChunkTable(b, n).value
  {
    ChunkTableAppend(a, b, n);
  }

  lemma FlattenAppend(a: seq<string>, b: seq<string>)
    ensures Flatten(a + b) == Flatten(a) + Flatten(b)
  {
    if a != [] {
      assert (a + b)[1..] == a[1..] + b;
      FlattenAppend(a[1..], b);
    } else {
      assert a + b == b;
    }
  }

  lemma FlattenTextsAppend(a: Table, b: Table)
    ensures Flatten(Texts(a + b)) == Flatten(Texts(a)) + Flatten(Texts(b))
  {
    assert Texts(a + b) == Texts(a) + Texts(b);
    FlattenAppend(Texts(a), Texts(b));
  }

  lemma FlattenTextsCons(t: Table)
    requires t != []
    ensures Flatten(Texts(t)) == TextContent(t[0]) + Flatten(Texts(t[1..]))
  {
    assert Texts(t)[0] == TextContent(t[0]) && Texts(t)[1..] == Texts(t[1..]);
  }

  /**
    Content is preserved across the whole table: the output contents,
    joined, are the input contents joined, so the total length is the same
    and no character is dropped, duplicated or moved to another place.
   */
  lemma {:induction false} ChunkTablePreservesText(t: Table, n: int)
    requires n > 0 && ChunkTable(t, n).Ok?
    requires forall i :: 0 <= i < |t| ==> Distinct(Keys(t[i]))
    ensures Flatten(Texts(ChunkTable(t, n).value)) == Flatten(Texts(t))
    decreases |t|
  {
    if t != [] {
      assert ChunkRow(t[0], n).Ok? && ChunkTable(t[1..], n).Ok?;
      var rs := ChunkRow(t[0], n).value;
      var rest := ChunkTable(t[1..], n).value;
      assert ChunkTable(t, n).value == rs + rest;
      ChunkRowTexts(t[0], n);
      assert forall i :: 0 <= i < |t[1..]| ==> t[1..][i] == t[i + 1];
      ChunkTablePreservesText(t[1..], n);
      FlattenTextsAppend(rs, rest);
      FlattenTextsCons(t);
    }
  }

  /**
    A whole call on one row: ten characters at size 4 give three rows, each
    with its chunk, its index and the row's other field, in key order
    "content", "chunk_id", "id".
   */
  lemma ChunkTableExample()
    ensures ChunkTable([[(CONTENT, Str("abcdefghij")), ("id", Int(1))]], 4) == Ok([
              [(CONTENT, Str("abcd")), (CHUNK_ID, Int(0)), ("id", Int(1))],
              [(CONTENT, Str("efgh")), (CHUNK_ID, Int(1)), ("id", Int(1))],
              [(CONTENT, Str("ij")), (CHUNK_ID, Int(2)), ("id", Int(1))]])
  {
    var row: Record := [(CONTENT, Str("abcdefghij")), ("id", Int(1))];
    var oldFields: Record := [("id", Int(1))];
    assert Remove(row, CONTENT) == oldFields;
    forall c: string, id: nat
      ensures ChunkRecord(c, id, row) == [(CONTENT, Str(c)), (CHUNK_ID, Int(id)), ("id", Int(1))]
    {
      MergeNewKey(c, id, "id", Int(1));
    }
    var chunks := ["abcd", "efgh", "ij"];
    assert TextContent(row) == "abcdefghij";
    ChunksExample();
    ChunkTableOneRow(row, 4, chunks);
    assert RowRecords(row, chunks) == [ChunkRecord("abcd", 0, row), ChunkRecord("efgh", 1, row), ChunkRecord("ij", 2, row)];
  }

  /** A source "chunk_id" of 7 overrides the computed index on every row and stays in second position. */
  lemma ChunkTableSourceIdExample()
    ensures ChunkTable([[(CHUNK_ID, Int(7)), (CONTENT, Str("abcdefghij"))]], 4) == Ok([
              [(CONTENT, Str("abcd")), (CHUNK_ID, Int(7))],
              [(CONTENT, Str("efgh")), (CHUNK_ID, Int(7))],
              [(CONTENT, Str("ij")), (CHUNK_ID, Int(7))]])
  {
    var row: Record := [(CHUNK_ID, Int(7)), (CONTENT, Str("abcdefghij"))];
    var oldFields: Record := [(CHUNK_ID, Int(7))];
    assert Remove(row, CONTENT) == oldFields;
    forall c: string, id: nat
      ensures ChunkRecord(c, id, row) == [(CONTENT, Str(c)), (CHUNK_ID, Int(7))]
    {
      MergeSourceId(c, id, Int(7));
    }
    var chunks := ["abcd", "efgh", "ij"];
    assert row[1..] == [(CONTENT, Str("abcdefghij"))];
    // "chunk_id" and "content" differ in their second letter, so the lookup passes the first pair.
    assert CHUNK_ID[1] != CONTENT[1];
    assert Lookup(row, CONTENT) == Lookup(row[1..], CONTENT);
    assert TextContent(row) == "abcdefghij";
    ChunksExample();
    ChunkTableOneRow(row, 4, chunks);
    assert RowRecords(row, chunks) == [ChunkRecord("abcd", 0, row), ChunkRecord("efgh", 1, row), ChunkRecord("ij", 2, row)];
  }

  /** Merging a field that is neither "content" nor "chunk_id" appends it after the two new fields. */
  lemma MergeNewKey(c: string, id: nat, k: Key, v: Value)
    requires k != CONTENT && k != CHUNK_ID
    ensures Merge([(CONTENT, Str(c)), (CHUNK_ID, Int(id))], [(k, v)]) == [(CONTENT, Str(c)), (CHUNK_ID, Int(id)), (k, v)]
  {
    var nf: Record := [(CONTENT, Str(c)), (CHUNK_ID, Int(id))];
    assert Keys(nf) == [CONTENT, CHUNK_ID];
    UpdateFreshKeys([], nf);
    assert [] + nf == nf;
    AssignNewKey(nf, k, v);
    assert Update(nf, [(k, v)]) == Update(Assign(nf, k, v), []);
  }

  /** Merging a source "chunk_id" replaces the computed one in second position. */
  lemma MergeSourceId(c: string, id: nat, v: Value)
    ensures Merge([(CONTENT, Str(c)), (CHUNK_ID, Int(id))], [(CHUNK_ID, v)]) == [(CONTENT, Str(c)), (CHUNK_ID, v)]
  {
    var nf: Record := [(CONTENT, Str(c)), (CHUNK_ID, Int(id))];
    assert Keys(nf) == [CONTENT, CHUNK_ID];
    UpdateFreshKeys([], nf);
    assert [] + nf == nf;
    assert CONTENT[1] != CHUNK_ID[1];
    assert nf[1..] == [(CHUNK_ID, Int(id))];
    assert Assign(nf, CHUNK_ID, v) == [(CONTENT, Str(c)), (CHUNK_ID, v)];
    assert Update(nf, [(CHUNK_ID, v)]) == Update(Assign(nf, CHUNK_ID, v), []);
  }

  /** A one-row table whose text is chunked into `chunks` gives the rows of those chunks. */
  lemma ChunkTableOneRow(row: Record, n: nat, chunks: seq<string>)
    requires n > 0 && HasTextContent(row) && Chunks(TextContent(row), n) == chunks
    ensures ChunkTable([row], n) == Ok(RowRecords(row, chunks))
  {
    ChunkTableSingle(row, n);
  }

  /** A one-row table gives what its row gives. */
  lemma ChunkTableSingle(row: Record, n: int)
    ensures ChunkTable([row], n) == ChunkRow(row, n)
  {
    var t: Table := [row];
    assert t[1..] == [];
    match ChunkRow(row, n)
    case Err(_) =>
    case Ok(rs) => assert rs + [] == rs;
  }
}
