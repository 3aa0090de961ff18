# chunk_content, modelled in Dafny

`chunk_content(in_df, chunk_size=500)` reshapes a table of records. It cuts the
`"content"` text of every row into consecutive pieces of `chunk_size`
characters, the last piece of a row possibly shorter. Each piece becomes a new
row that holds the piece as `"content"`, its zero-based index within the row as
`"chunk_id"`, and every other field of the source row. Rows produced from one
source row come before the rows produced from the next one.

The model has four modules:

- `Wrappers` (`wrappers.dfy`): `Option` and `Result`.
- `Records` (`records.dfy`): a row as a Python dict. A row is an ordered
  sequence of `(key, value)` pairs, and a well-formed row has distinct keys. The
  module gives dict lookup (`d[k]`), item assignment (`d[k] = v`),
  `dict.update`, the display `{**a, **b}` (`Merge`) and `dict.pop(k, None)`
  (`Remove`), each with Python's key-order rules.
- `Chunking` (`chunking.dfy`): the comprehension
  `[content[i:i+n] for i in range(0, len(content), n)]`. It is built from
  Python's `range` with a positive step and Python's clamping slice. The
  module also proves the partition law of the comprehension.
- `Chunker` (`chunker.dfy`): the whole function. `ChunkRecord` builds one output
  row (lines 11-14). `ChunkRow` is one outer iteration, including the
  exceptions it can raise. `ChunkTable` is the whole call as a function.
  `ChunkContent` is the outer loop as a method, proved equal to `ChunkTable`.
  It raises each row's exception itself. Its chunk size defaults to 500, as in
  the source. `AppendChunkRecords` is the inner loop.

Python exceptions are modelled as results, not as preconditions:

- A row without `"content"` gives `KeyError("content")`.
- A `"content"` that is not text gives `TypeError`, from `len()`.
- A chunk size of 0 gives `ValueError`, from `range()`. It is raised only when
  a row with text content is reached, so an empty table with chunk size 0
  returns an empty table.
- A negative chunk size makes every `range` empty, so the output has no rows.

The first failing row decides which exception is raised, and no partial table
is returned.

The output row is built as `{**new_fields, **old_fields}`. The source fields
are spread last, so a source row's own `"chunk_id"` value overwrites the
computed index. The key itself stays in second position, where `new_fields`
put it. The model follows the code (`ChunkRecordFields`, `ChunkRowFields`,
`ChunkTableSourceIdExample`).

## Model

| member | source | states |
|---|---|---|
| `Records.Lookup` | utils.py:7 | `row["content"]`: there is a value exactly when the key is one of the row's keys, and the value is one that the row pairs with the key |
| `Records.LookupPaired` | utils.py:7 | in a row with distinct keys, `row[k]` is the value of the one pair with key `k` |
| `Records.AssignLookup` | utils.py:14 | after `d[k] = v`, key `k` holds `v` and every other key keeps its value |
| `Records.AssignKeys` | utils.py:14 | `d[k] = v` keeps the key order and appends `k` only when it is new; distinct keys stay distinct |
| `Records.UpdateFreshKeys` | utils.py:14 | spreading a dict with distinct keys into an empty dict reproduces it, pairs and order unchanged |
| `Records.UpdateLookup` | utils.py:14 | after `d.update(items)`, a key of `items` holds its value in `items` and any other key keeps its value in `d` |
| `Records.UpdateKeys` | utils.py:14 | `d.update(items)` keeps `d`'s keys in place and appends the new keys of `items` in their order; distinct keys stay distinct |
| `Records.MergeFields` | utils.py:14 | `{**a, **b}`: the later dict's value wins on a shared key, `a`'s key order comes first, `b`'s new keys follow in order, and the keys are distinct |
| `Records.Remove` | utils.py:13 | `pop("content", None)`: the key is gone, a missing key is no error, every other key keeps its value, and the key order is kept |
| `Chunking.ChunksUnfold` | utils.py:8 | the first chunk is the first `n` characters, or the whole text when it is shorter; the remaining chunks are the chunks of the rest of the text |
| `Chunking.ChunksPartition` | utils.py:8 | the chunks joined give back the content exactly; every chunk but the last has exactly `n` characters; the last has 1 to `n` |
| `Chunking.ChunksCount` | utils.py:8-9 | a content of length L gives ceil(L / n) chunks; only the empty content gives none |
| `Chunking.ChunkingUnique` | utils.py:8 | two lists of pieces that both satisfy the partition law for the same text and size are equal |
| `Chunking.ChunksCharacterized` | utils.py:8 | a list of pieces satisfies the partition law for `s` and `n` exactly when it is the chunk list of `s` at size `n` |
| `Chunking.ChunksExample` | utils.py:8 | "abcdefghij" at size 4 gives "abcd", "efgh", "ij" |
| `Chunker.ChunkContent` | utils.py:4-17 | the outer loop returns exactly `ChunkTable(table, chunk_size)`: all output rows, or the exception of the first failing row, raised when that row is reached |
| `Chunker.AppendChunkRecords` | utils.py:10-15 | the inner loop appends, in order, one merged row per chunk, numbered from 0: exactly the rows `RowRecords` gives for that source row |
| `Chunker.ChunkTableAppend` | utils.py:6-15 | running over two tables one after the other equals running over their concatenation, and an exception in the first one stops the run |
| `Chunker.ChunkTableStopsAt` | utils.py:6-8 | if every row before row `i` succeeds and row `i` fails, the call raises row `i`'s exception |
| `Chunker.ChunkTableSucceeds` | utils.py:6-8 | the call succeeds exactly when every row has a text `"content"` and the chunk size is not 0, or the table is empty |
| `Chunker.ChunkTableFirstError` | utils.py:6-8 | a failing call raises the exception of a row before which every row succeeds |
| `Chunker.ChunkTableNegativeSize` | utils.py:8 | with a negative chunk size, a call that succeeds returns no rows |
| `Chunker.ChunkRecordFields` | utils.py:11-14 | an output row's `"content"` is its chunk, not the source text; its `"chunk_id"` is the index unless the source row has a `"chunk_id"`, whose value wins; every other field keeps the source value; keys are `content`, `chunk_id`, then the other source keys in order, all distinct |
| `Chunker.ChunkRowCount` | utils.py:8-10 | a source row with text of length L gives ceil(L / n) output rows, none for an empty text |
| `Chunker.ChunkRowFields` | utils.py:9-14 | output row `k` of a source row holds chunk `k` and `chunk_id` `k`, unless the source row has a `"chunk_id"`, whose value every output row then carries; other fields are carried unchanged; the key order is the same for every row |
| `Chunker.ChunkRowTexts` | utils.py:8-14 | the contents of a source row's output rows, joined in output order, give back that row's text |
| `Chunker.ChunkTableCount` | utils.py:6-15 | the output length is the sum over source rows of ceil(len(content) / n) |
| `Chunker.ChunkTableBlock` | utils.py:6-15 | the rows of source row `i` are one contiguous block of the output, starting right after the rows of every earlier source row |
| `Chunker.ChunkTableExample` | utils.py:4-17 | a one-row table with content "abcdefghij" and field `id` at size 4 gives three rows "abcd", "efgh", "ij" with `chunk_id` 0, 1, 2, each carrying `id`, keys in order `content`, `chunk_id`, `id` |
| `Chunker.ChunkTableSourceIdExample` | utils.py:11-14 | a source row whose own `chunk_id` is 7 gives three rows that all carry `chunk_id` 7, still in second position |
| `Chunker.ChunkTablePreservesText` | utils.py:6-15 | the output contents joined equal the input contents joined, so no character is lost, duplicated or reordered across the table |

## Left out

- pandas machinery is not modelled: `iterrows`, `pd.concat`, `reset_index` and the `DataFrame` index (utils.py:6, 15-16). A table is a sequence of rows, and the output index is the position in that sequence.
- dtype coercion by `iterrows` and `to_dict` is not modelled, for example ints turned into floats in mixed numeric rows (utils.py:6, 12). Values pass through unchanged.
- When rows have different columns, `pd.concat` takes the union of the columns and fills the gaps with NaN. This is not modelled: each output row keeps exactly its own keys.
- A `"content"` value that is a list or another sized non-text object is not modelled. `Value` has text, integers and opaque scalars, and `len()` raises `TypeError` on a scalar that is not text.
- Strings are sequences of Unicode characters. No encoding is involved, like Python's `str`.
- `Records.Remove`: `dict.pop` changes a freshly built dict in place (utils.py:12-13). No one else can see that dict, so the model computes the dict without the key as a new value. The popped value is thrown away in the source, so it is not returned.
- The input table is a value, so the model states no separate "not modified" property. `ChunkContent` has no `modifies` clause.
- The quadratic cost of the repeated `pd.concat` is not modelled. `ChunkContent` appends to one sequence.
- The lemmas about rows and fields require distinct keys in each row, which every dict has. Code without such a lemma, such as `Merge`, `ChunkRow`, `ChunkTable` and `ChunkContent`, accepts any sequence of pairs.
