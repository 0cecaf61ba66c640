/** Telemetry output in size-rotated files: file 0 is being written, higher indices are older. */
module Rotation {
  import opened Prelude

  type Line = seq<byte>

  const NEWLINE: byte := 10

  /** The files of the output directory by index, each a sequence of bytes, or of lines. */
  type Files<T> = map<nat, seq<T>>

  function FileAt<T>(d: Files<T>, i: nat): Option<seq<T>> {
    if i in d then Some(d[i]) else None
  }

  function BytesAt<T>(d: Files<T>, i: nat): seq<T> {
    FileAt(d, i).GetOr([])
  }

  /**
   * What a rotation leaves at index `i`: an empty current file, every other kept file's
   * younger neighbour, and the oldest one's old contents when it has no neighbour. A file
   * outside the kept range stays.
   */
  function RotatedAt<T>(maxFiles: nat, d: Files<T>, i: nat): Option<seq<T>> {
    if i == 0 then Some([])
    else if i < maxFiles && i - 1 in d then Some(d[i - 1])
    else if i + 1 < maxFiles then None
    else FileAt(d, i)
  }

  function Rotated<T>(maxFiles: nat, d: Files<T>): Files<T> {
    map i: nat | i in {0} + d.Keys + (set k: nat | k in d :: k + 1) && RotatedAt(maxFiles, d, i).Some? ::
      RotatedAt(maxFiles, d, i).value
  }

  /** Part way: the files above `i` are in place, the one at `i` has moved on. */
  function ShiftingAt<T>(maxFiles: nat, d: Files<T>, i: nat, j: nat): Option<seq<T>> {
    if j < i then FileAt(d, j)
    else if j > i then RotatedAt(maxFiles, d, j)
    else if i + 1 < maxFiles then None
    else FileAt(d, i)
  }

  lemma RotatedFiles<T>(maxFiles: nat, d: Files<T>, i: nat)
    ensures FileAt(Rotated(maxFiles, d), i) == RotatedAt(maxFiles, d, i)
  {
    if i > 0 && i - 1 in d {
      var k := i - 1;
      assert k in d && k + 1 == i;
    }
  }

  /**
   * A rotation, file by file: an empty current file; every kept index above it has what was one
   * below; the last kept file goes only if another takes its place; nothing else is touched.
   */
  lemma RotationExactly<T>(maxFiles: nat, d: Files<T>, i: nat)
    ensures var d' := Rotated(maxFiles, d);
            && 0 in d' && d'[0] == []
            && (1 <= i < maxFiles && i - 1 in d ==> i in d' && d'[i] == d[i - 1])
            && (1 <= i < maxFiles - 1 && i - 1 !in d ==> i !in d')
            && (i >= 1 && (i >= maxFiles || (i == maxFiles - 1 && i - 1 !in d)) ==>
                  (i in d' <==> i in d) && (i in d ==> d'[i] == d[i]))
  {
    RotatedFiles(maxFiles, d, 0);
    RotatedFiles(maxFiles, d, i);
  }

  lemma SameFiles<T>(a: Files<T>, b: Files<T>)
    requires forall i: nat :: FileAt(a, i) == FileAt(b, i)
    ensures a == b
  {
    forall i: nat
      ensures i in a <==> i in b
      ensures i in a ==> a[i] == b[i]
    {
      assert FileAt(a, i) == FileAt(b, i);
    }
  }

  /** A current file of `size` bytes cannot take `line` and its newline. */
  predicate MustRotate(maxBytes: nat, size: nat, line: Line) {
    size > 0 && size + |line| + 1 > maxBytes
  }

  /** The directory once `line` is written and flushed. */
  function Written(maxBytes: nat, maxFiles: nat, d: Files<byte>, line: Line): Files<byte>
    requires 0 in d
  {
    var d' := if MustRotate(maxBytes, |d[0]|, line) then Rotated(maxFiles, d) else d;
    d'[0 := BytesAt(d', 0) + line + [NEWLINE]]
  }

  function WrittenAll(maxBytes: nat, maxFiles: nat, d: Files<byte>, lines: seq<Line>): (r: Files<byte>)
    requires 0 in d
    ensures 0 in r
  {
    if lines == [] then d
    else Written(maxBytes, maxFiles, WrittenAll(maxBytes, maxFiles, d, lines[..|lines| - 1]), lines[|lines| - 1])
  }

  function Flat<T>(parts: seq<seq<T>>): seq<T> {
    if parts == [] then [] else Flat(parts[..|parts| - 1]) + parts[|parts| - 1]
  }

  /** The lines of the records that serialised. */
  function Lines(records: seq<Option<Line>>): seq<Line> {
    if records == [] then []
    else Lines(records[..|records| - 1]) +
         match records[|records| - 1] { case Some(line) => [line] case None => [] }
  }

  lemma LinesSnoc(records: seq<Option<Line>>, record: Option<Line>)
    ensures Lines(records + [record]) == Lines(records) + match record { case Some(line) => [line] case None => [] }
  {
    assert (records + [record])[..|records|] == records;
  }

  lemma WrittenSnoc(maxBytes: nat, maxFiles: nat, d: Files<byte>, lines: seq<Line>, line: Line)
    requires 0 in d
    ensures WrittenAll(maxBytes, maxFiles, d, lines + [line]) ==
            Written(maxBytes, maxFiles, WrittenAll(maxBytes, maxFiles, d, lines), line)
  {
    assert (lines + [line])[..|lines|] == lines;
  }

  /**
   * One line, file by file: it goes with a newline behind the current file, or first in a new one
   * if that file is not empty and would become longer than the limit.
   */
  lemma WrittenExactly(maxBytes: nat, maxFiles: nat, d: Files<byte>, line: Line)
    requires 0 in d
    ensures var d', newline := Written(maxBytes, maxFiles, d, line), [10 as byte];
            if |d[0]| > 0 && |d[0] + line + newline| > maxBytes
            then 0 in d' && d'[0] == line + newline
                 && forall i: nat :: i > 0 ==> FileAt(d', i) == FileAt(Rotated(maxFiles, d), i)
            else d' == d[0 := d[0] + line + newline]
  {
    RotatedFiles(maxFiles, d, 0);
    assert [] + line == line;
  }

  /** The directory once a record is dealt with. */
  function Taken(maxBytes: nat, maxFiles: nat, d: Files<byte>, record: Option<Line>): Files<byte>
    requires 0 in d
  {
    match record
    case Some(line) => Written(maxBytes, maxFiles, d, line)
    case None => d
  }

  lemma TakenSnoc(maxBytes: nat, maxFiles: nat, d: Files<byte>, records: seq<Option<Line>>, record: Option<Line>)
    requires 0 in d
    ensures WrittenAll(maxBytes, maxFiles, d, Lines(records + [record])) ==
            Taken(maxBytes, maxFiles, WrittenAll(maxBytes, maxFiles, d, Lines(records)), record)
    ensures |Lines(records + [record])| == |Lines(records)| + if record.Some? then 1 else 0
  {
    LinesSnoc(records, record);
    if record.Some? {
      WrittenSnoc(maxBytes, maxFiles, d, Lines(records), record.value);
    } else {
      assert Lines(records) + [] == Lines(records);
    }
  }

  class RotatingWriter {
    const maxBytes: nat
    const maxFiles: nat
    /** Capacity of the write buffer in front of the current file. */
    const capacity: nat
    var disk: Files<byte>
    /** Bytes written to the buffer and not yet to file 0. */
    var pending: seq<byte>
    /** Length of the current file, buffered bytes included. */
    var size: nat

    predicate Valid()
      reads this
    {
      maxFiles >= 1 && |pending| <= capacity && 0 in disk && size == |disk[0]| + |pending|
    }

    /** The directory as a flush would leave it. */
    function Contents(): Files<byte>
      requires Valid()
      reads this
    {
      disk[0 := disk[0] + pending]
    }

    /** Opens the current file for appending, creating it if needed. */
    constructor Open(disk: Files<byte>, maxBytes: nat, maxFiles: nat, capacity: nat)
      ensures Valid() && pending == []
      ensures this.maxBytes == maxBytes && this.maxFiles == if maxFiles == 0 then 1 else maxFiles
      ensures Contents() == if 0 in disk then disk else disk[0 := []]
    {
      this.disk := if 0 in disk then disk else disk[0 := []];
      this.maxBytes := maxBytes;
      this.maxFiles := if maxFiles >= 1 then maxFiles else 1;
      this.capacity := capacity;
      this.pending := [];
      this.size := if 0 in disk then |disk[0]| else 0;
      new;
      assert this.disk[0] + pending == this.disk[0];
    }

    method Flush()
      requires Valid()
      modifies this
      ensures Valid() && pending == [] && disk == Contents() == old(Contents()) && size == old(size)
    {
      disk := disk[0 := disk[0] + pending];
      pending := [];
      assert disk[0] + pending == disk[0];
    }

    /** Buffers what fits; otherwise empties the buffer first, and passes over it what is larger still. */
    method WriteAll(data: seq<byte>)
      requires Valid()
      modifies this`disk, this`pending, this`size
      ensures Valid() && Contents() == old(Contents())[0 := old(Contents())[0] + data]
      ensures size == old(size) + |data|
    {
      size := size + |data|;
      if |data| < capacity - |pending| {
        pending := pending + data;
      } else {
        if |data| > capacity - |pending| {
          disk := disk[0 := disk[0] + pending];
          pending := [];
        }
        if |data| >= capacity {
          disk := disk[0 := disk[0] + data];
        } else {
          pending := pending + data;
        }
      }
      assert Contents()[0] == old(Contents())[0] + data;
    }

    /** Shifts every kept file one index up, oldest first, and starts an empty current file. */
    method Rotate()
      requires Valid()
      modifies this
      ensures Valid() && pending == [] && size == 0
      ensures disk == Contents() == Rotated(maxFiles, old(Contents()))
    {
      Flush();
      ghost var before := disk;
      var i := maxFiles - 1;
      while i >= 1
        invariant 0 <= i < maxFiles && 0 in before && pending == []
        invariant forall j: nat :: FileAt(disk, j) == ShiftingAt(maxFiles, before, i, j)
      {
        ghost var shifting := disk;
        if i - 1 in disk {
          var moved := disk[i - 1];
          if i in disk {
            disk := disk - {i};
          }
          disk := (disk - {i - 1})[i := moved];
        }
        forall j: nat ensures FileAt(disk, j) == ShiftingAt(maxFiles, before, i - 1, j) {
          assert FileAt(shifting, i - 1) == FileAt(before, i - 1);
          assert FileAt(shifting, j) == ShiftingAt(maxFiles, before, i, j);
        }
        i := i - 1;
      }
      ghost var shifted := disk;
      disk := disk[0 := []];
      size := 0;
      forall j: nat ensures FileAt(disk, j) == FileAt(Rotated(maxFiles, before), j) {
        assert FileAt(shifted, j) == ShiftingAt(maxFiles, before, 0, j);
        RotatedFiles(maxFiles, before, j);
      }
      SameFiles(disk, Rotated(maxFiles, before));
      assert Contents() == disk;
    }

    /** Appends one line and a newline, rotating first if a non-empty file would grow past the limit. */
    method WriteLine(line: Line)
      requires Valid()
      modifies this
      ensures Valid() && Contents() == Written(maxBytes, maxFiles, old(Contents()), line)
      ensures size == |Contents()[0]|
    {
      if size > 0 && size + (|line| + 1) > maxBytes {
        Rotate();
      }
      WriteAll(line);
      WriteAll([NEWLINE]);
    }

    /** Writes a record's line, if it has one. */
    method WriteRecord(record: Option<Line>) returns (ok: bool)
      requires Valid()
      modifies this
      ensures Valid() && Contents() == Taken(maxBytes, maxFiles, old(Contents()), record) && ok == record.Some?
    {
      ok := record.Some?;
      if ok {
        WriteLine(record.value);
      }
    }

    /** Writes one batch of serialised records after the ones in `done`, without flushing. */
    method WriteBatch(batch: seq<Option<Line>>, ghost before: Files<byte>, ghost done: seq<Option<Line>>)
      returns (written: nat, errors: nat)
      requires Valid() && 0 in before && Contents() == WrittenAll(maxBytes, maxFiles, before, Lines(done))
      modifies this
      ensures Valid() && Contents() == WrittenAll(maxBytes, maxFiles, before, Lines(done + batch))
      ensures |Lines(done)| + written == |Lines(done + batch)| && written + errors == |batch|
    {
      written, errors := 0, 0;
      ghost var queued := done;
      assert done + batch[..0] == done;
      for j := 0 to |batch|
        invariant Valid() && queued == done + batch[..j] && written + errors == j
        invariant Contents() == WrittenAll(maxBytes, maxFiles, before, Lines(queued))
        invariant |Lines(done)| + written == |Lines(queued)|
      {
        TakenSnoc(maxBytes, maxFiles, before, queued, batch[j]);
        var ok := WriteRecord(batch[j]);
        written, errors := if ok then written + 1 else written, if ok then errors else errors + 1;
        assert done + batch[..j + 1] == queued + [batch[j]];
        queued := queued + [batch[j]];
      }
      assert batch[..|batch|] == batch;
    }

    /**
     * Writes batches of serialised records until the channel closes, flushing once per batch;
     * a record that failed to serialise only counts as an error.
     */
    method Drain(batches: seq<seq<Option<Line>>>) returns (recordsWritten: nat, writeErrors: nat)
      requires Valid()
      modifies this
      ensures Valid() && pending == []
      ensures disk == WrittenAll(maxBytes, maxFiles, old(Contents()), Lines(Flat(batches)))
      ensures recordsWritten == |Lines(Flat(batches))| && recordsWritten + writeErrors == |Flat(batches)|
    {
      recordsWritten, writeErrors := 0, 0;
      ghost var before := Contents();
      for i := 0 to |batches|
        invariant Valid()
        invariant Contents() == WrittenAll(maxBytes, maxFiles, before, Lines(Flat(batches[..i])))
        invariant recordsWritten == |Lines(Flat(batches[..i]))|
        invariant recordsWritten + writeErrors == |Flat(batches[..i])|
      {
        assert batches[..i + 1][..i] == batches[..i];
        var written, errors := WriteBatch(batches[i], before, Flat(batches[..i]));
        recordsWritten, writeErrors := recordsWritten + written, writeErrors + errors;
        Flush();
      }
      assert batches[..|batches|] == batches;
      Flush();
    }
  }
}
