/** What the rotated files hold after any number of lines: a suffix of everything written, tightly packed. */
module Retention {
  import opened Prelude
  import opened Rotation

  /** The kept files read from the oldest to the current one. */
  function Retained<T>(d: Files<T>, maxFiles: nat): seq<T> {
    if maxFiles == 0 then [] else BytesAt(d, maxFiles - 1) + Retained(d, maxFiles - 1)
  }

  /** The contents a rotation loses: those of the last kept file, unless a gap leaves it in place. */
  function Dropped<T>(maxFiles: nat, d: Files<T>): seq<T>
    requires maxFiles >= 1
  {
    if maxFiles == 1 || maxFiles - 2 in d then BytesAt(d, maxFiles - 1) else []
  }

  lemma {:induction false} YoungerShift<T>(maxFiles: nat, d: Files<T>, k: nat)
    requires 1 <= k < maxFiles
    ensures Retained(Rotated(maxFiles, d), k) == Retained(d, k - 1)
  {
    RotatedFiles(maxFiles, d, k - 1);
    if k > 1 {
      YoungerShift(maxFiles, d, k - 1);
    }
  }

  /** A rotation loses at most the one file at the last index, and reorders nothing. */
  lemma RotateAccounts<T>(maxFiles: nat, d: Files<T>)
    requires maxFiles >= 1
    ensures Dropped(maxFiles, d) + Retained(Rotated(maxFiles, d), maxFiles) == Retained(d, maxFiles)
  {
    RotatedFiles(maxFiles, d, maxFiles - 1);
    if maxFiles >= 2 {
      YoungerShift(maxFiles, d, maxFiles - 1);
      assert Retained(d, maxFiles) == BytesAt(d, maxFiles - 1) + (BytesAt(d, maxFiles - 2) + Retained(d, maxFiles - 2));
    }
  }

  lemma {:induction false} AppendRetained<T>(d: Files<T>, s: seq<T>, n: nat)
    requires n >= 1
    ensures Retained(d[0 := BytesAt(d, 0) + s], n) == Retained(d, n) + s
  {
    if n > 1 {
      AppendRetained(d, s, n - 1);
    }
  }

  function Stream(lines: seq<Line>): seq<byte> {
    if lines == [] then [] else Stream(lines[..|lines| - 1]) + lines[|lines| - 1] + [NEWLINE]
  }

  lemma StreamSnoc(lines: seq<Line>, line: Line)
    ensures Stream(lines + [line]) == Stream(lines) + line + [NEWLINE]
  {
    assert (lines + [line])[..|lines|] == lines;
  }

  /** What writing `line` makes the directory lose. */
  function Loss(maxBytes: nat, maxFiles: nat, d: Files<byte>, line: Line): seq<byte>
    requires maxFiles >= 1 && 0 in d
  {
    if MustRotate(maxBytes, |d[0]|, line) then Dropped(maxFiles, d) else []
  }

  function Losses(maxBytes: nat, maxFiles: nat, d: Files<byte>, lines: seq<Line>): seq<byte>
    requires maxFiles >= 1 && 0 in d
  {
    if lines == [] then []
    else
      var n := |lines| - 1;
      Losses(maxBytes, maxFiles, d, lines[..n]) +
        Loss(maxBytes, maxFiles, WrittenAll(maxBytes, maxFiles, d, lines[..n]), lines[n])
  }

  lemma WriteAccounts(maxBytes: nat, maxFiles: nat, d: Files<byte>, line: Line)
    requires maxFiles >= 1 && 0 in d
    ensures Loss(maxBytes, maxFiles, d, line) + Retained(Written(maxBytes, maxFiles, d, line), maxFiles) ==
            Retained(d, maxFiles) + (line + [NEWLINE])
  {
    var d' := if MustRotate(maxBytes, |d[0]|, line) then Rotated(maxFiles, d) else d;
    AppendLine(maxFiles, d', line);
    if MustRotate(maxBytes, |d[0]|, line) {
      RotateAccounts(maxFiles, d);
      assert Dropped(maxFiles, d) + (Retained(d', maxFiles) + (line + [NEWLINE]))
          == Retained(d, maxFiles) + (line + [NEWLINE]);
    }
  }

  lemma AppendLine(maxFiles: nat, d: Files<byte>, line: Line)
    requires maxFiles >= 1
    ensures Retained(d[0 := BytesAt(d, 0) + line + [NEWLINE]], maxFiles) == Retained(d, maxFiles) + (line + [NEWLINE])
  {
    assert BytesAt(d, 0) + line + [NEWLINE] == BytesAt(d, 0) + (line + [NEWLINE]);
    AppendRetained(d, line + [NEWLINE], maxFiles);
  }

  lemma Regroup<T>(
      lost: seq<T>, loss: seq<T>, kept: seq<T>, before: seq<T>, initial: seq<T>, prefix: seq<T>, line: seq<T>)
    requires lost + before == initial + prefix && loss + kept == before + line
    ensures (lost + loss) + kept == initial + (prefix + line)
  {
    assert (lost + loss) + kept == lost + (loss + kept) == (lost + before) + line;
    assert (initial + prefix) + line == initial + (prefix + line);
  }

  /** Conservation: what was lost, then what is kept, is the initial contents and then every line written. */
  lemma {:induction false} WritesAccounted(maxBytes: nat, maxFiles: nat, d: Files<byte>, lines: seq<Line>)
    requires maxFiles >= 1 && 0 in d
    ensures Losses(maxBytes, maxFiles, d, lines) + Retained(WrittenAll(maxBytes, maxFiles, d, lines), maxFiles) ==
            Retained(d, maxFiles) + Stream(lines)
  {
    if lines != [] {
      var n := |lines| - 1;
      var before := WrittenAll(maxBytes, maxFiles, d, lines[..n]);
      var lost, loss := Losses(maxBytes, maxFiles, d, lines[..n]), Loss(maxBytes, maxFiles, before, lines[n]);
      var kept := Retained(Written(maxBytes, maxFiles, before, lines[n]), maxFiles);
      WritesAccounted(maxBytes, maxFiles, d, lines[..n]);
      WriteAccounts(maxBytes, maxFiles, before, lines[n]);
      Regroup(lost, loss, kept, Retained(before, maxFiles), Retained(d, maxFiles), Stream(lines[..n]),
              lines[n] + [NEWLINE]);
      assert Stream(lines) == Stream(lines[..n]) + (lines[n] + [NEWLINE]);
    }
  }

  /** The kept files are a suffix of the initial contents followed by every line written. */
  lemma KeepsSuffix(maxBytes: nat, maxFiles: nat, d: Files<byte>, lines: seq<Line>)
    requires maxFiles >= 1 && 0 in d
    ensures IsSuffix(Retained(WrittenAll(maxBytes, maxFiles, d, lines), maxFiles),
                     Retained(d, maxFiles) + Stream(lines))
  {
    WritesAccounted(maxBytes, maxFiles, d, lines);
  }

  // ---- how many files there are -----------------------------------------

  /** Files beyond the kept range are never touched. */
  lemma {:induction false} LeftoverStays(maxBytes: nat, maxFiles: nat, d: Files<byte>, lines: seq<Line>, i: nat)
    requires 1 <= maxFiles <= i && 0 in d
    ensures FileAt(WrittenAll(maxBytes, maxFiles, d, lines), i) == FileAt(d, i)
  {
    if lines != [] {
      LeftoverStays(maxBytes, maxFiles, d, lines[..|lines| - 1], i);
      RotatedFiles(maxFiles, WrittenAll(maxBytes, maxFiles, d, lines[..|lines| - 1]), i);
    }
  }

  /** Every file of the directory has an index the rotation works on. */
  predicate OnlyKept<T>(d: Files<T>, maxFiles: nat) {
    forall i :: i in d ==> i < maxFiles
  }

  /** The kept range stays clean exactly when it was clean: lines neither add nor remove a file beyond it. */
  lemma OnlyKeptIff(maxBytes: nat, maxFiles: nat, d: Files<byte>, lines: seq<Line>)
    requires maxFiles >= 1 && 0 in d
    ensures OnlyKept(WrittenAll(maxBytes, maxFiles, d, lines), maxFiles) <==> OnlyKept(d, maxFiles)
  {
    forall i: nat | i >= maxFiles
      ensures i in d <==> i in WrittenAll(maxBytes, maxFiles, d, lines)
    {
      LeftoverStays(maxBytes, maxFiles, d, lines, i);
    }
  }

  /** The indices below `n`. */
  function Below(n: nat): set<nat> {
    if n == 0 then {} else Below(n - 1) + {n - 1}
  }

  lemma {:induction false} BelowExact(n: nat)
    ensures |Below(n)| == n && forall i: nat :: i in Below(n) <==> i < n
  {
    if n > 0 {
      BelowExact(n - 1);
    }
  }

  lemma {:induction false} SubsetSize(a: set<nat>, b: set<nat>)
    requires a <= b
    ensures |a| <= |b|
  {
    if a != {} {
      var x :| x in a;
      SubsetSize(a - {x}, b - {x});
    }
  }

  /** How many files the directory has after writing `lines`. */
  function FilesAfter(maxBytes: nat, maxFiles: nat, d: Files<byte>, lines: seq<Line>): nat
    requires 0 in d
  {
    |WrittenAll(maxBytes, maxFiles, d, lines).Keys|
  }

  /** A line so long that every file holding one is full. */
  predicate Fills(maxBytes: nat, line: Line) {
    |line| >= maxBytes
  }

  predicate HasBelow(d: Files<byte>, n: nat) {
    forall i: nat :: i < n ==> i in d
  }

  /** One more line that fills a file: one more of the kept indices is in use. */
  lemma FillOneMore(maxBytes: nat, maxFiles: nat, d: Files<byte>, line: Line, n: nat)
    requires HasBelow(d, n) && 1 <= n < maxFiles && d[0] != [] && Fills(maxBytes, line)
    ensures HasBelow(Written(maxBytes, maxFiles, d, line), n + 1) && Written(maxBytes, maxFiles, d, line)[0] != []
  {
    forall i: nat | i < n + 1
      ensures i in Written(maxBytes, maxFiles, d, line)
    {
      RotatedFiles(maxFiles, d, i);
    }
  }

  /** `n` lines that each fill a file bring the first `n` indices into use, up to `maxFiles`. */
  lemma {:induction false} FullLinesFill(maxBytes: nat, maxFiles: nat, d: Files<byte>, lines: seq<Line>)
    requires 1 <= |lines| <= maxFiles && 0 in d && forall l :: l in lines ==> Fills(maxBytes, l)
    ensures HasBelow(WrittenAll(maxBytes, maxFiles, d, lines), |lines|)
    ensures WrittenAll(maxBytes, maxFiles, d, lines)[0] != []
  {
    var n := |lines| - 1;
    if n >= 1 {
      FullLinesFill(maxBytes, maxFiles, d, lines[..n]);
      FillOneMore(maxBytes, maxFiles, WrittenAll(maxBytes, maxFiles, d, lines[..n]), lines[n], n);
    }
  }

  /** With a file beyond the kept ones, `maxFiles` lines that each fill a file make one file too many. */
  lemma LeftoverExceeds(maxBytes: nat, maxFiles: nat, d: Files<byte>, lines: seq<Line>, extra: nat)
    requires 1 <= maxFiles <= extra && 0 in d && extra in d
    requires |lines| == maxFiles && forall l :: l in lines ==> Fills(maxBytes, l)
    ensures FilesAfter(maxBytes, maxFiles, d, lines) > maxFiles
  {
    LeftoverStays(maxBytes, maxFiles, d, lines, extra);
    FullLinesFill(maxBytes, maxFiles, d, lines);
    BelowExact(maxFiles);
    SubsetSize(Below(maxFiles) + {extra}, WrittenAll(maxBytes, maxFiles, d, lines).Keys);
  }

  /**
   * The documented limit, a number of files: whatever is written, at most `maxFiles` files
   * exist, if and only if the directory had none beyond the kept indices to begin with.
   */
  lemma FileLimitIff(maxBytes: nat, maxFiles: nat, d: Files<byte>)
    requires maxFiles >= 1 && 0 in d
    ensures (forall lines :: FilesAfter(maxBytes, maxFiles, d, lines) <= maxFiles) <==> OnlyKept(d, maxFiles)
  {
    if OnlyKept(d, maxFiles) {
      BelowExact(maxFiles);
      forall lines ensures FilesAfter(maxBytes, maxFiles, d, lines) <= maxFiles {
        OnlyKeptIff(maxBytes, maxFiles, d, lines);
        SubsetSize(WrittenAll(maxBytes, maxFiles, d, lines).Keys, Below(maxFiles));
      }
    } else {
      var extra :| extra in d && extra >= maxFiles;
      var full: Line := seq(maxBytes, _ => NEWLINE);
      var lines := seq(maxFiles, _ => full);
      LeftoverExceeds(maxBytes, maxFiles, d, lines, extra);
      assert FilesAfter(maxBytes, maxFiles, d, lines) > maxFiles;
    }
  }

  /** After the limit was lowered to two: an old fourth file stays, and two full lines make three files. */
  lemma LeftoverExample(maxBytes: nat, line: Line)
    requires |line| == maxBytes
    ensures FilesAfter(maxBytes, 2, map[0 := [], 3 := [NEWLINE]], [line, line]) > 2
  {
    LeftoverExceeds(maxBytes, 2, map[0 := [], 3 := [NEWLINE]], [line, line], 3);
  }

  // ---- from an empty directory, line by line ----------------------------

  /** The directory of files of lines, as bytes. */
  function AsBytes(d: Files<Line>): Files<byte> {
    map i | i in d :: Stream(d[i])
  }

  /** `Written`, keeping the lines apart. */
  function Filed(maxBytes: nat, maxFiles: nat, d: Files<Line>, line: Line): Files<Line>
    requires 0 in d
  {
    var d' := if MustRotate(maxBytes, |Stream(d[0])|, line) then Rotated(maxFiles, d) else d;
    d'[0 := BytesAt(d', 0) + [line]]
  }

  function FiledAll(maxBytes: nat, maxFiles: nat, lines: seq<Line>): (r: Files<Line>)
    ensures 0 in r
  {
    if lines == [] then map[0 := []]
    else Filed(maxBytes, maxFiles, FiledAll(maxBytes, maxFiles, lines[..|lines| - 1]), lines[|lines| - 1])
  }

  lemma RotatedAsBytes(maxFiles: nat, d: Files<Line>)
    ensures AsBytes(Rotated(maxFiles, d)) == Rotated(maxFiles, AsBytes(d))
  {
    forall i: nat ensures FileAt(AsBytes(Rotated(maxFiles, d)), i) == FileAt(Rotated(maxFiles, AsBytes(d)), i) {
      RotatedFiles(maxFiles, d, i);
      RotatedFiles(maxFiles, AsBytes(d), i);
    }
    SameFiles(AsBytes(Rotated(maxFiles, d)), Rotated(maxFiles, AsBytes(d)));
  }

  lemma FiledAsBytes(maxBytes: nat, maxFiles: nat, d: Files<Line>, line: Line)
    requires 0 in d
    ensures AsBytes(Filed(maxBytes, maxFiles, d, line)) == Written(maxBytes, maxFiles, AsBytes(d), line)
  {
    var d' := if MustRotate(maxBytes, |Stream(d[0])|, line) then Rotated(maxFiles, d) else d;
    RotatedAsBytes(maxFiles, d);
    StreamSnoc(BytesAt(d', 0), line);
  }

  const EMPTY_DIR: Files<byte> := map[0 := []]

  /** The byte-level directory is the line-level one. */
  lemma {:induction false} FiledAllAsBytes(maxBytes: nat, maxFiles: nat, lines: seq<Line>)
    ensures AsBytes(FiledAll(maxBytes, maxFiles, lines)) == WrittenAll(maxBytes, maxFiles, EMPTY_DIR, lines)
  {
    if lines != [] {
      FiledAllAsBytes(maxBytes, maxFiles, lines[..|lines| - 1]);
      FiledAsBytes(maxBytes, maxFiles, FiledAll(maxBytes, maxFiles, lines[..|lines| - 1]), lines[|lines| - 1]);
    }
  }

  function Size(d: Files<Line>, i: nat): nat {
    |Stream(BytesAt(d, i))|
  }

  predicate FitsOrSingle(maxBytes: nat, d: Files<Line>, i: nat) {
    Size(d, i) <= maxBytes || |BytesAt(d, i)| == 1
  }

  /** Files `i` and `i - 1` together exceed the limit. */
  predicate Overfull(maxBytes: nat, d: Files<Line>, i: nat)
    requires i > 0
  {
    Size(d, i) + Size(d, i - 1) > maxBytes
  }

  /** A directory and the number of its files. */
  datatype Layout = Layout(d: Files<Line>, count: nat)

  /** Exactly the files below `count` exist; each fits or holds one line, and no two neighbours would fit in one. */
  predicate Packed(maxBytes: nat, layout: Layout) {
    match layout
    case Layout(d, count) =>
      && (forall i: nat :: i < count ==> i in d && FitsOrSingle(maxBytes, d, i))
      && (forall i :: i in d ==> i < count)
      && (forall i: nat :: 0 < i < count ==> Overfull(maxBytes, d, i))
  }

  /** The files once a line is filed: one more after a rotation, until there are `maxFiles`. */
  function CountAfter(maxBytes: nat, maxFiles: nat, d: Files<Line>, count: nat, line: Line): nat {
    if MustRotate(maxBytes, Size(d, 0), line) && count < maxFiles then count + 1 else count
  }

  /** The files of `r` are those of `d` with `line` added, after a rotation if one is due. */
  lemma FiledFiles(maxBytes: nat, maxFiles: nat, d: Files<Line>, line: Line, i: nat)
    requires 0 in d
    ensures FileAt(Filed(maxBytes, maxFiles, d, line), i) ==
            if i == 0 then Some((if MustRotate(maxBytes, Size(d, 0), line) then [] else d[0]) + [line])
            else if MustRotate(maxBytes, Size(d, 0), line) then RotatedAt(maxFiles, d, i)
            else FileAt(d, i)
  {
    RotatedFiles(maxFiles, d, i);
  }

  lemma CurrentSize(maxBytes: nat, maxFiles: nat, d: Files<Line>, line: Line)
    requires 0 in d
    ensures var r := Filed(maxBytes, maxFiles, d, line);
            && Size(r, 0) == |line| + 1 + (if MustRotate(maxBytes, Size(d, 0), line) then 0 else Size(d, 0))
            && FitsOrSingle(maxBytes, r, 0)
  {
    FiledFiles(maxBytes, maxFiles, d, line, 0);
    StreamSnoc([], line);
    StreamSnoc(d[0], line);
  }

  /** Where an older file's contents come from. */
  lemma OlderFile(maxBytes: nat, maxFiles: nat, d: Files<Line>, line: Line, i: nat)
    requires 0 in d && i > 0 && i - 1 in d
    requires MustRotate(maxBytes, Size(d, 0), line) ==> i < maxFiles
    ensures BytesAt(Filed(maxBytes, maxFiles, d, line), i) ==
            BytesAt(d, if MustRotate(maxBytes, Size(d, 0), line) then i - 1 else i)
  {
    FiledFiles(maxBytes, maxFiles, d, line, i);
  }

  /** Neighbours stay too large to share a file: the current one grows, the older ones move together. */
  lemma OlderOverfull(maxBytes: nat, maxFiles: nat, d: Files<Line>, line: Line, i: nat)
    requires 0 in d && i > 0 && i - 1 in d
    requires MustRotate(maxBytes, Size(d, 0), line) ==> i < maxFiles
    requires if !MustRotate(maxBytes, Size(d, 0), line) then Overfull(maxBytes, d, i)
             else i == 1 || (i - 2 in d && Overfull(maxBytes, d, i - 1))
    ensures Overfull(maxBytes, Filed(maxBytes, maxFiles, d, line), i)
  {
    OlderFile(maxBytes, maxFiles, d, line, i);
    if i == 1 {
      CurrentSize(maxBytes, maxFiles, d, line);
    } else {
      FiledFiles(maxBytes, maxFiles, d, line, i - 1);
    }
  }

  lemma FiledPacked(maxBytes: nat, maxFiles: nat, d: Files<Line>, count: nat, line: Line)
    requires 1 <= count <= maxFiles && Packed(maxBytes, Layout(d, count))
    ensures Packed(maxBytes, Layout(Filed(maxBytes, maxFiles, d, line), CountAfter(maxBytes, maxFiles, d, count, line)))
  {
    var r, count' := Filed(maxBytes, maxFiles, d, line), CountAfter(maxBytes, maxFiles, d, count, line);
    var rotate := MustRotate(maxBytes, Size(d, 0), line);
    CurrentSize(maxBytes, maxFiles, d, line);
    forall i: nat
      ensures i in r <==> i < count'
      ensures i < count' ==> FitsOrSingle(maxBytes, r, i)
      ensures 0 < i < count' ==> Overfull(maxBytes, r, i)
    {
      FiledFiles(maxBytes, maxFiles, d, line, i);
      if 0 < i < count' {
        OlderFile(maxBytes, maxFiles, d, line, i);
        assert FitsOrSingle(maxBytes, d, if rotate then i - 1 else i);
        OlderOverfull(maxBytes, maxFiles, d, line, i);
      }
    }
  }

  /** Filing a line adds it after the kept ones, less those of a file the rotation lost. */
  lemma FiledKeeps(maxBytes: nat, maxFiles: nat, d: Files<Line>, count: nat, line: Line) returns (lost: nat)
    requires 1 <= count <= maxFiles && Packed(maxBytes, Layout(d, count))
    ensures lost <= |Retained(d, maxFiles)|
    ensures Retained(Filed(maxBytes, maxFiles, d, line), maxFiles) == Retained(d, maxFiles)[lost..] + [line]
    ensures CountAfter(maxBytes, maxFiles, d, count, line) < maxFiles ==> lost == 0
  {
    var d' := if MustRotate(maxBytes, Size(d, 0), line) then Rotated(maxFiles, d) else d;
    AppendRetained(d', [line], maxFiles);
    RotateAccounts(maxFiles, d);
    lost := if MustRotate(maxBytes, Size(d, 0), line) then |Dropped(maxFiles, d)| else 0;
    assert Retained(d', maxFiles) == Retained(d, maxFiles)[lost..];
  }

  function FileCount(maxBytes: nat, maxFiles: nat, lines: seq<Line>): nat {
    if lines == [] then 1
    else
      var n := |lines| - 1;
      CountAfter(maxBytes, maxFiles, FiledAll(maxBytes, maxFiles, lines[..n]),
                 FileCount(maxBytes, maxFiles, lines[..n]), lines[n])
  }

  lemma {:induction false} PackedRun(maxBytes: nat, maxFiles: nat, lines: seq<Line>)
    requires maxFiles >= 1
    ensures 1 <= FileCount(maxBytes, maxFiles, lines) <= maxFiles
    ensures Packed(maxBytes, Layout(FiledAll(maxBytes, maxFiles, lines), FileCount(maxBytes, maxFiles, lines)))
  {
    if lines != [] {
      var n := |lines| - 1;
      PackedRun(maxBytes, maxFiles, lines[..n]);
      FiledPacked(maxBytes, maxFiles, FiledAll(maxBytes, maxFiles, lines[..n]),
                  FileCount(maxBytes, maxFiles, lines[..n]), lines[n]);
    }
  }

  lemma DropSnoc<T>(s: seq<T>, a: nat, b: nat)
    requires a + b < |s|
    ensures s[..|s| - 1][a..][b..] + [s[|s| - 1]] == s[a + b..]
  {
  }

  /**
   * The files hold the last lines, each once and in order, and nothing is lost before all
   * `maxFiles` files exist.
   */
  lemma {:induction false} KeptRun(maxBytes: nat, maxFiles: nat, lines: seq<Line>) returns (kept: nat)
    requires maxFiles >= 1
    ensures kept <= |lines| && Retained(FiledAll(maxBytes, maxFiles, lines), maxFiles) == lines[kept..]
    ensures FileCount(maxBytes, maxFiles, lines) < maxFiles ==> kept == 0
  {
    if lines == [] {
      kept := 0;
      RetainedOf(FiledAll(maxBytes, maxFiles, lines), maxFiles, 1);
      assert Retained(FiledAll(maxBytes, maxFiles, lines), 1) == [];
    } else {
      var n := |lines| - 1;
      var d, count := FiledAll(maxBytes, maxFiles, lines[..n]), FileCount(maxBytes, maxFiles, lines[..n]);
      kept := KeptRun(maxBytes, maxFiles, lines[..n]);
      PackedRun(maxBytes, maxFiles, lines[..n]);
      var lost := FiledKeeps(maxBytes, maxFiles, d, count, lines[n]);
      DropSnoc(lines, kept, lost);
      kept := kept + lost;
    }
  }

  /** Reading past the last file adds nothing. */
  lemma {:induction false} RetainedOf<T>(d: Files<T>, n: nat, count: nat)
    requires count <= n && forall i :: i in d ==> i < count
    ensures Retained(d, n) == Retained(d, count)
  {
    if count < n {
      RetainedOf(d, n - 1, count);
    }
  }

  lemma {:induction false} RetainedBytes(d: Files<Line>, n: nat)
    ensures Retained(AsBytes(d), n) == Stream(Retained(d, n))
  {
    if n > 0 {
      RetainedBytes(d, n - 1);
      StreamConcat(BytesAt(d, n - 1), Retained(d, n - 1));
    }
  }

  lemma {:induction false} StreamConcat(a: seq<Line>, b: seq<Line>)
    ensures Stream(a + b) == Stream(a) + Stream(b)
  {
    if b == [] {
      assert a + b == a;
    } else {
      var n := |b| - 1;
      StreamConcat(a, b[..n]);
      assert a + b == (a + b[..n]) + [b[n]];
      StreamSnoc(a + b[..n], b[n]);
    }
  }

  lemma PairExceeds(maxBytes: nat, d: Files<Line>, count: nat, i: nat)
    requires Packed(maxBytes, Layout(d, count)) && 0 < i < count
    ensures |Retained(AsBytes(d), i + 1)| > |Retained(AsBytes(d), i - 1)| + maxBytes
  {
    assert Overfull(maxBytes, d, i);
  }

  lemma OnePairMore(n: nat, pair: nat)
    requires n >= 2
    ensures (n / 2) * pair == ((n - 2) / 2) * pair + pair
  {
    assert n / 2 == (n - 2) / 2 + 1;
  }

  /** Neighbouring files pair up to more than `maxBytes` each. */
  lemma {:induction false} PairsExceed(maxBytes: nat, d: Files<Line>, count: nat, n: nat)
    requires Packed(maxBytes, Layout(d, count)) && n <= count
    ensures |Retained(AsBytes(d), n)| >= (n / 2) * (maxBytes + 1)
  {
    if n >= 2 {
      PairsExceed(maxBytes, d, count, n - 2);
      PairExceeds(maxBytes, d, count, n - 1);
      OnePairMore(n, maxBytes + 1);
    }
  }

  /** `d` is the directory of `count` files holding exactly the lines from `kept` on. */
  predicate Holds(d: Files<byte>, maxFiles: nat, lines: seq<Line>, count: nat, kept: nat)
    requires kept <= |lines|
  {
    && (forall i: nat :: i < count ==> i in d)
    && OnlyKept(d, count)
    && Retained(d, maxFiles) == Stream(lines[kept..])
  }

  /**
   * Retention, starting from an empty directory: the files hold exactly the last lines, all of
   * them while fewer than `maxFiles` files exist, and more than `maxBytes` bytes for each pair of files.
   */
  lemma RetentionBound(maxBytes: nat, maxFiles: nat, lines: seq<Line>) returns (count: nat, kept: nat)
    requires maxFiles >= 1
    ensures 1 <= count <= maxFiles && kept <= |lines|
    ensures Holds(WrittenAll(maxBytes, maxFiles, EMPTY_DIR, lines), maxFiles, lines, count, kept)
    ensures count < maxFiles ==> kept == 0
    ensures |Stream(lines[kept..])| >= (count / 2) * (maxBytes + 1)
  {
    count := FileCount(maxBytes, maxFiles, lines);
    kept := KeptRun(maxBytes, maxFiles, lines);
    PackedRun(maxBytes, maxFiles, lines);
    var d := FiledAll(maxBytes, maxFiles, lines);
    FiledAllAsBytes(maxBytes, maxFiles, lines);
    RetainedBytes(d, maxFiles);
    PairsExceed(maxBytes, d, count, count);
    RetainedOf(AsBytes(d), maxFiles, count);
  }

  lemma FiledOnlyLines(maxBytes: nat, maxFiles: nat, lines: seq<Line>, i: nat, line: Line)
    requires maxFiles >= 1
    requires i in FiledAll(maxBytes, maxFiles, lines) && line in FiledAll(maxBytes, maxFiles, lines)[i]
    ensures line in lines
  {
    PackedRun(maxBytes, maxFiles, lines);
    var kept := KeptRun(maxBytes, maxFiles, lines);
    RetainedHas(FiledAll(maxBytes, maxFiles, lines), maxFiles, i);
  }

  lemma FiledFits(maxBytes: nat, maxFiles: nat, lines: seq<Line>, i: nat)
    requires maxFiles >= 1 && i in FiledAll(maxBytes, maxFiles, lines)
    ensures FitsOrSingle(maxBytes, FiledAll(maxBytes, maxFiles, lines), i)
  {
    PackedRun(maxBytes, maxFiles, lines);
  }

  lemma SingleLineFile(file: seq<Line>)
    requires |file| == 1
    ensures Stream(file) == file[0] + [NEWLINE]
  {
    assert file == [] + [file[0]];
    StreamSnoc([], file[0]);
  }

  /** From an empty directory on, any file and the next younger one together exceed the limit. */
  lemma NeighboursExceed(maxBytes: nat, maxFiles: nat, lines: seq<Line>, i: nat)
    requires maxFiles >= 1 && i > 0 && i in WrittenAll(maxBytes, maxFiles, EMPTY_DIR, lines)
    ensures var d := WrittenAll(maxBytes, maxFiles, EMPTY_DIR, lines);
            i - 1 in d && |d[i]| + |d[i - 1]| > maxBytes
  {
    PackedRun(maxBytes, maxFiles, lines);
    FiledAllAsBytes(maxBytes, maxFiles, lines);
    assert Overfull(maxBytes, FiledAll(maxBytes, maxFiles, lines), i);
  }

  /** Every file, from an empty directory on, is within `maxBytes` or is one line and its newline. */
  lemma FileBound(maxBytes: nat, maxFiles: nat, lines: seq<Line>, i: nat)
    requires maxFiles >= 1 && i in WrittenAll(maxBytes, maxFiles, EMPTY_DIR, lines)
    ensures var file := WrittenAll(maxBytes, maxFiles, EMPTY_DIR, lines)[i];
            |file| <= maxBytes || exists line :: line in lines && file == line + [NEWLINE]
  {
    var d := FiledAll(maxBytes, maxFiles, lines);
    FiledAllAsBytes(maxBytes, maxFiles, lines);
    FiledFits(maxBytes, maxFiles, lines, i);
    if |d[i]| == 1 {
      SingleLineFile(d[i]);
      FiledOnlyLines(maxBytes, maxFiles, lines, i, d[i][0]);
    }
  }

  lemma {:induction false} RetainedHas<T>(d: Files<T>, n: nat, i: nat)
    requires i in d && i < n
    ensures forall x :: x in d[i] ==> x in Retained(d, n)
  {
    if i < n - 1 {
      RetainedHas(d, n - 1, i);
    }
  }
}
