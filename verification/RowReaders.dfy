/** Row readers: the interface the merge reads its inputs from, and the buffer it keeps on each of them. */
module RowReaders {

  /** The errors a reader returns; NoError is Go's nil. */
  datatype ReadError = NoError | EOF | Failure(code: int)

  /** A reader of the rows `data`, standing for any implementation: it reads them in chunks of its own choosing. */
  class RowSource<T> {
    const data: seq<T>
    var pos: nat
    ghost var errors: seq<ReadError>  // what each of its reads has returned besides rows

    ghost predicate Valid()
      reads this
    {
      pos <= |data|
    }

    ghost function Remaining(): seq<T>
      requires Valid()
      reads this
    {
      data[pos..]
    }

    constructor (data: seq<T>)
      ensures Valid() && this.data == data && pos == 0 && errors == []
    {
      this.data := data;
      pos, errors := 0, [];
    }

    /** What the last read returned. */
    ghost function LastError(): ReadError
      reads this
    {
      if errors == [] then NoError else errors[|errors| - 1]
    }

    /**
     * Reads at most `space` of the next rows. It may return fewer rows than fit, it may fail, and it may report
     * the end together with the last rows, but it makes progress or returns an error.
     */
    method ReadRows(space: nat) returns (chunk: seq<T>, err: ReadError)
      requires Valid() && space > 0
      modifies this
      ensures Valid() && |chunk| <= space
      ensures old(Remaining()) == chunk + Remaining()
      ensures chunk == [] ==> err != NoError
      ensures err == EOF ==> Remaining() == []
      ensures errors == old(errors) + [err]
    {
      var most := if |data| - pos < space then |data| - pos else space;
      var n :| 0 <= n <= most;
      err := *;
      if n == 0 && err == NoError {
        n := most;
      }
      if n < |data| - pos && err == EOF {
        err := Failure(0);
      } else if n == 0 && err == NoError {
        err := EOF;
      }
      chunk := data[pos..pos + n];
      assert data[pos..] == chunk + data[pos + n..];
      pos, errors := pos + n, errors + [err];
    }
  }

  /** `s` with the rows from index `from` on overwritten by `out`. */
  ghost function Splice<T>(s: seq<T>, from: nat, out: seq<T>): (r: seq<T>)
    requires from + |out| <= |s|
    ensures |r| == |s|
  {
    s[..from] + out + s[from + |out|..]
  }

  /** What overwriting the front of a sequence leaves: the rows written, and the rest as it was. */
  lemma SplicedFront<T>(s: seq<T>, out: seq<T>)
    requires |out| <= |s|
    ensures Splice(s, 0, out)[..|out|] == out && Splice(s, 0, out)[|out|..] == s[|out|..]
  {
  }

  lemma SpliceNothing<T>(s: seq<T>, from: nat)
    requires from <= |s|
    ensures Splice(s, from, []) == s
  {
  }

  /** Overwriting further rows extends the part already overwritten. */
  lemma SpliceOn<T>(s: seq<T>, from: nat, all: seq<T>, a: nat, b: nat, c: nat)
    requires a <= b <= c <= |all| && from + c - a <= |s|
    ensures Splice(Splice(s, from, all[a..b]), from + b - a, all[b..c]) == Splice(s, from, all[a..c])
  {
    assert all[a..c] == all[a..b] + all[b..c];
  }

  lemma SpliceConcat<T>(s: seq<T>, from: nat, a: seq<T>, b: seq<T>)
    requires from + |a| + |b| <= |s|
    ensures Splice(Splice(s, from, a), from + |a|, b) == Splice(s, from, a + b)
  {
  }

  /** Copies the first `run` rows of a window to the output. */
  method CopyRows<T>(window: seq<T>, run: nat, rows: array<T>, from: nat)
    requires run <= |window| && from + run <= rows.Length
    modifies rows
    ensures rows[..] == Splice(old(rows[..]), from, window[..run])
  {
    for i := 0 to run
      invariant rows[..] == Splice(old(rows[..]), from, window[..i])
    {
      rows[from + i] := window[i];
    }
  }

  function Min(a: nat, b: nat): nat {
    if a < b then a else b
  }

  const MIN_ROW_BUFFER_SIZE := 24
  const MAX_ROW_BUFFER_SIZE := 192

  /**
   * A row reader with a buffer of rows read ahead. The buffer has room for `size` rows (0 before it is allocated),
   * `buf` holds the `end` rows of the last refill, and those from `off` on have not been consumed yet.
   */
  class BufferedRowReader<T> {
    const rows: RowSource<T>
    var off: nat
    var end: nat
    var full: bool
    var size: nat
    var buf: seq<T>

    ghost predicate Valid()
      reads this, rows
    {
      && rows.Valid()
      && off <= end <= |buf|
      && (off == end ==> end == 0)
      && end <= size <= MAX_ROW_BUFFER_SIZE
    }

    /** The rows not consumed yet, buffered or not. */
    ghost function Pending(): seq<T>
      requires Valid()
      reads this, rows
    {
      Window() + rows.Remaining()
    }

    constructor (rows: RowSource<T>)
      requires rows.Valid()
      ensures Valid() && this.rows == rows && Empty() && Pending() == rows.Remaining()
    {
      this.rows := rows;
      off, end, full, size, buf := 0, 0, false, 0, [];
    }

    predicate Empty()
      reads this
    {
      end == off
    }

    function Head(): (row: T)
      requires Valid() && !Empty()
      reads this, rows
      ensures Pending() != [] && row == Pending()[0]
    {
      buf[off]
    }

    /** The buffered rows that have not been consumed yet. */
    function Window(): (w: seq<T>)
      requires Valid()
      reads this, rows
      ensures |w| == end - off
    {
      buf[off..end]
    }

    /** Consumes `n` buffered rows and reports whether more remain buffered. */
    method Advance(n: nat) returns (hasNext: bool)
      requires Valid() && n <= |Window()|
      modifies this
      ensures Valid() && hasNext == !Empty()
      ensures Window() == old(Window()[n..])
      ensures Pending() == old(Pending()[n..])
    {
      off := off + n;
      hasNext := off < end;
      if !hasNext {
        off := 0;
        end := 0;
      }
    }

    /** Allocates the buffer, or makes it larger if the last read has filled it. */
    method Grow()
      requires Valid()
      modifies `size
      ensures Valid() && 0 < size
      ensures size == if old(size) == 0 then 24 else if full && end == 0 then Min(2 * old(size), 192) else old(size)
    {
      if size == 0 {
        size := MIN_ROW_BUFFER_SIZE;
      } else if full && off == 0 && end == 0 && size < MAX_ROW_BUFFER_SIZE {
        size := Min(2 * size, MAX_ROW_BUFFER_SIZE);
      }
    }

    /**
     * Refills the empty buffer, growing it first if the reader kept filling it. The error of the reader below is
     * returned exactly when it returned no rows.
     */
    method Read() returns (err: ReadError)
      requires Valid() && Empty()
      modifies this, rows
      ensures Valid()
      ensures Pending() == old(Pending())
      ensures err == NoError <==> !Empty()
      ensures err == EOF ==> Pending() == []
      ensures rows.errors == old(rows.errors) + [rows.LastError()]
      ensures err == if Empty() then rows.LastError() else NoError
    {
      Grow();
      var chunk, e := rows.ReadRows(size - end);
      if e != NoError && chunk == [] {
        return e;
      }
      assert off == end == 0 && buf[..end] + chunk == chunk && chunk[..|chunk|] == chunk;
      buf := buf[..end] + chunk;
      end := end + |chunk|;
      full := end == size;
      return NoError;
    }
  }
}
