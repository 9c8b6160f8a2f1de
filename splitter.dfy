/** The chunking utility `split`: the data rows of a delimited file are
    written, in order, into output files numbered 1, 2, ... holding at most
    `max(row_limit, 1)` data rows each (a limit below 1 acts as 1), every
    file beginning with the header row. */
module Splitter {
  import opened Wrappers

  /** One parsed line of the delimited file. */
  type Row = seq<string>

  /** One output file: its number (the value inserted into the name
      template), the header row written when it was opened, and the data
      rows written to it afterwards. */
  datatype Chunk = Chunk(number: nat, header: Row, rows: seq<Row>)

  /** The lines of an output file, as they end up on disk. */
  function Lines(c: Chunk): seq<Row>
  {
    [c.header] + c.rows
  }

  /** The data rows of all chunks, concatenated in chunk order. */
  function Bodies(chunks: seq<Chunk>): seq<Row>
  {
    if chunks == [] then [] else Bodies(chunks[..|chunks| - 1]) + chunks[|chunks| - 1].rows
  }

  /** A limit below 1 behaves like 1: the counter test `i + 1 > row_limit`
      then holds on every row, so every row opens a new file. */
  function EffectiveLimit(rowLimit: int): (l: nat)
    ensures l >= 1
    ensures rowLimit >= 1 ==> l == rowLimit
  {
    if rowLimit < 1 then 1 else rowLimit
  }

  /** The layout `split` produces for `body`: files numbered consecutively
      from 1, each opened with `header`, each holding between 1 and `limit`
      rows, all but the last exactly `limit`, their rows concatenating back
      to `body`. */
  ghost predicate WellChunked(chunks: seq<Chunk>, header: Row, body: seq<Row>, limit: nat)
  {
    (forall j :: 0 <= j < |chunks| ==>
       chunks[j].number == j + 1 && chunks[j].header == header &&
       1 <= |chunks[j].rows| <= limit) &&
    (forall j :: 0 <= j < |chunks| - 1 ==> |chunks[j].rows| == limit) &&
    Bodies(chunks) == body
  }

  /** Writing `row` to the most recently opened file. */
  function WriteRow(chunks: seq<Chunk>, row: Row): (r: seq<Chunk>)
    requires chunks != []
    ensures |r| == |chunks| && r[..|r| - 1] == chunks[..|chunks| - 1]
    ensures r[|r| - 1] == chunks[|chunks| - 1].(rows := chunks[|chunks| - 1].rows + [row])
  {
    var last := chunks[|chunks| - 1];
    chunks[..|chunks| - 1] + [last.(rows := last.rows + [row])]
  }

  /** `split`: `file` is the whole delimited file, its first row the header.
      A file with no row at all makes the reading of the header raise, which
      is `None` here. */
  method Split(file: seq<Row>, rowLimit: int) returns (r: Option<seq<Chunk>>)
    ensures r.None? <==> file == []
    ensures r.Some? ==> WellChunked(r.value, file[0], file[1..], EffectiveLimit(rowLimit))
  {
    if file == [] {
      return None;
    }
    var header, body := file[0], file[1..];
    ghost var limit := EffectiveLimit(rowLimit);
    var chunks: seq<Chunk> := [];
    var currentChunk := 1;
    var i := rowLimit;
    for k := 0 to |body|
      invariant currentChunk == |chunks| + 1
      invariant k == 0 ==> chunks == [] && i == rowLimit
      invariant k > 0 ==> chunks != [] && i == |chunks[|chunks| - 1].rows|
      invariant WellChunked(chunks, header, body[..k], limit)
    {
      var row := body[k];
      assert body[..k + 1] == body[..k] + [row];
      if i + 1 > rowLimit {
        OpenChunkStep(chunks, header, body[..k], limit, row);
        chunks := chunks + [Chunk(currentChunk, header, [])];
        currentChunk := currentChunk + 1;
        i := 0;
      } else {
        WriteRowStep(chunks, header, body[..k], limit, row);
      }
      chunks := WriteRow(chunks, row);
      i := i + 1;
    }
    assert body[..|body|] == body;
    return Some(chunks);
  }

  /** Opening a new file after a full one (or as the first file) and writing
      `row` to it keeps the layout well chunked. */
  lemma OpenChunkStep(chunks: seq<Chunk>, header: Row, body: seq<Row>, limit: nat, row: Row)
    requires limit >= 1 && WellChunked(chunks, header, body, limit)
    requires chunks != [] ==> |chunks[|chunks| - 1].rows| == limit
    ensures WellChunked(WriteRow(chunks + [Chunk(|chunks| + 1, header, [])], row), header, body + [row], limit)
  {
    var withNew := chunks + [Chunk(|chunks| + 1, header, [])];
    var r := WriteRow(withNew, row);
    assert withNew[..|withNew| - 1] == chunks;
    assert [] + [row] == [row];
    assert r[|r| - 1] == Chunk(|chunks| + 1, header, [row]);
    assert r == r[..|r| - 1] + [r[|r| - 1]];
  }

  /** Writing `row` to a file that is not yet full keeps the layout well
      chunked. */
  lemma WriteRowStep(chunks: seq<Chunk>, header: Row, body: seq<Row>, limit: nat, row: Row)
    requires WellChunked(chunks, header, body, limit)
    requires chunks != [] && |chunks[|chunks| - 1].rows| < limit
    ensures WellChunked(WriteRow(chunks, row), header, body + [row], limit)
  {
    var r := WriteRow(chunks, row);
    assert r[..|r| - 1] == chunks[..|chunks| - 1];
  }
  /** The rows of the first `j` chunks are a prefix of the rows of all. */
  lemma {:induction false} BodiesPrefix(chunks: seq<Chunk>, j: nat)
    requires j <= |chunks|
    ensures |Bodies(chunks[..j])| <= |Bodies(chunks)|
    ensures Bodies(chunks)[..|Bodies(chunks[..j])|] == Bodies(chunks[..j])
    decreases |chunks| - j
  {
    if j == |chunks| {
      assert chunks[..j] == chunks;
    } else {
      var init := chunks[..|chunks| - 1];
      assert init[..j] == chunks[..j];
      BodiesPrefix(init, j);
    }
  }

  /** In a well-chunked layout the first `j` chunks, all full, hold
      `j * limit` rows. */
  lemma {:induction false} FullChunksLength(chunks: seq<Chunk>, header: Row, body: seq<Row>, limit: nat, j: nat)
    requires WellChunked(chunks, header, body, limit)
    requires j < |chunks|
    ensures |Bodies(chunks[..j])| == j * limit
  {
    if j > 0 {
      FullChunksLength(chunks, header, body, limit, j - 1);
      assert chunks[..j][..j - 1] == chunks[..j - 1];
    }
  }

  /** Chunk `j` holds exactly the data rows starting at position
      `j * limit` of the input, in their original order. */
  lemma ChunkRowsAt(chunks: seq<Chunk>, header: Row, body: seq<Row>, limit: nat, j: nat)
    requires WellChunked(chunks, header, body, limit)
    requires j < |chunks|
    ensures j * limit + |chunks[j].rows| <= |body|
    ensures chunks[j].rows == body[j * limit .. j * limit + |chunks[j].rows|]
  {
    FullChunksLength(chunks, header, body, limit, j);
    BodiesPrefix(chunks, j + 1);
    assert chunks[..j + 1][..j] == chunks[..j];
    assert Bodies(chunks[..j + 1]) == Bodies(chunks[..j]) + chunks[j].rows;
    var p := Bodies(chunks[..j]);
    assert body[..|p| + |chunks[j].rows|] == p + chunks[j].rows;
    assert body[|p| .. |p| + |chunks[j].rows|] == body[..|p| + |chunks[j].rows|][|p|..];
  }

  lemma MulLeft(a: int, b: int, d: int)
    requires a <= b && d >= 0
    ensures a * d <= b * d
  {
    var e := b - a;
    assert e * d >= 0;
    assert b * d == a * d + e * d;
  }

  /** `x / d == q` whenever `x` lies in `[q * d, q * d + d)`. */
  lemma DivBetween(x: int, d: int, q: int)
    requires d > 0 && q * d <= x < q * d + d
    ensures x / d == q
  {
    var q' := x / d;
    assert x == q' * d + x % d;
    if q' > q {
      MulLeft(q + 1, q', d);
    } else if q' < q {
      MulLeft(q' + 1, q, d);
    }
  }

  /** The bounds below pin `m` down as `ceil(n / d)`. */
  lemma CeilFromBounds(n: int, d: int, m: int)
    requires d >= 1 && (m - 1) * d < n <= m * d
    ensures (n + d - 1) / d == m
  {
    assert m * d == (m - 1) * d + d;
    DivBetween(n + d - 1, d, m);
  }

  /** With a limit of at least 1 and `n` data rows there are `ceil(n / limit)`
      chunks: `m` chunks hold more than `(m - 1) * limit` and at most
      `m * limit` rows. In particular an input without data rows
      creates no chunk. */
  lemma ChunkCount(chunks: seq<Chunk>, header: Row, body: seq<Row>, limit: nat)
    requires WellChunked(chunks, header, body, limit) && limit >= 1
    ensures (|chunks| - 1) * limit < |body| <= |chunks| * limit
    ensures |chunks| == (|body| + limit - 1) / limit
    ensures body == [] <==> chunks == []
  {
    var m := |chunks|;
    if m > 0 {
      FullChunksLength(chunks, header, body, limit, m - 1);
      assert chunks[..m - 1] == chunks[..|chunks| - 1];
      assert |body| == (m - 1) * limit + |chunks[m - 1].rows|;
    }
    CeilFromBounds(|body|, limit, m);
  }

  /** Every output file, as it ends up on disk, is the header followed by
      the data rows from position `j * limit` of the input on. */
  lemma ChunkFiles(chunks: seq<Chunk>, header: Row, body: seq<Row>, limit: nat)
    requires WellChunked(chunks, header, body, limit)
    ensures forall j :: 0 <= j < |chunks| ==>
      j * limit + |chunks[j].rows| <= |body| &&
      Lines(chunks[j])[0] == header &&
      Lines(chunks[j])[1..] == body[j * limit .. j * limit + |chunks[j].rows|]
  {
    forall j | 0 <= j < |chunks|
      ensures j * limit + |chunks[j].rows| <= |body| &&
        Lines(chunks[j])[0] == header &&
        Lines(chunks[j])[1..] == body[j * limit .. j * limit + |chunks[j].rows|]
    {
      ChunkRowsAt(chunks, header, body, limit, j);
      assert Lines(chunks[j])[1..] == chunks[j].rows;
    }
  }

  /** The example of a 250-row file with `row_limit` 100: three files holding
      100, 100 and 50 data rows, the header first in each. */
  lemma TwoHundredFiftyRows(chunks: seq<Chunk>, header: Row, body: seq<Row>)
    requires WellChunked(chunks, header, body, 100) && |body| == 250
    ensures |chunks| == 3
    ensures |chunks[0].rows| == 100 && |chunks[1].rows| == 100 && |chunks[2].rows| == 50
    ensures forall j :: 0 <= j < 3 ==> Lines(chunks[j])[0] == header
  {
    ChunkCount(chunks, header, body, 100);
    FullChunksLength(chunks, header, body, 100, 2);
  }
}
