/**
 A remote file under modification, as pfs.c keeps it: a sparse local data file, an interval tree of
 what the data file holds, and an append-only index of the same intervals. Reading takes covered
 bytes from the data file and all others from the remote original.
 */
module Overlay {
  import opened Common
  import opened Bytes
  import opened IntervalTree

  datatype Record = Record(offset: nat, length: nat)

  datatype Op = Write(buf: Bytes, offset: nat) | Truncate(size: nat)

  // ---------------------------------------------------------------- A plain file

  /** Cuts a file or fills it up with zeros. */
  function Resized(f: Bytes, size: nat): (r: Bytes)
    ensures |r| == size
  {
    if size <= |f| then f[..size] else f + Zeros(size - |f|)
  }

  /** pwrite: a gap before the offset reads as zeros. */
  function Written(f: Bytes, buf: Bytes, offset: nat): (r: Bytes)
    ensures |r| == Max(|f|, offset + |buf|)
  {
    var g := Resized(f, Max(|f|, offset + |buf|));
    g[..offset] + buf + g[offset + |buf|..]
  }

  function Apply(f: Bytes, op: Op): (r: Bytes) {
    match op
    case Write(buf, offset) => Written(f, buf, offset)
    case Truncate(size) => Resized(f, size)
  }

  function ApplyAll(f: Bytes, ops: seq<Op>): (r: Bytes) {
    if ops == [] then f else Apply(ApplyAll(f, ops[..|ops| - 1]), ops[|ops| - 1])
  }

  // ---------------------------------------------------------------- What a file holds after a run

  /** The op stores a byte at x. */
  predicate Stores(op: Op, x: nat) {
    op.Write? && op.offset <= x < op.offset + |op.buf|
  }

  /** The op cuts the file before x. */
  predicate CutsOff(op: Op, x: nat) {
    op.Truncate? && op.size <= x
  }

  /** How long a file of n bytes is after a run. */
  function LengthAfter(n: nat, ops: seq<Op>): (r: nat) {
    if ops == [] then n else
      var m := LengthAfter(n, ops[..|ops| - 1]);
      match ops[|ops| - 1]
      case Write(buf, offset) => if m < offset + |buf| then offset + |buf| else m
      case Truncate(size) => size
  }

  /** The byte at x, read from the last op back to the first: 0 in a gap and behind a cut. */
  function ByteAfter(original: Bytes, ops: seq<Op>, x: nat): (b: Byte) {
    if ops == [] then if x < |original| then original[x] else 0
    else
      var op := ops[|ops| - 1];
      if Stores(op, x) then op.buf[x - op.offset]
      else if CutsOff(op, x) then 0
      else ByteAfter(original, ops[..|ops| - 1], x)
  }

  lemma AppliedByte(f: Bytes, op: Op, x: nat)
    ensures var g := Apply(f, op);
            && |g| == (match op case Write(buf, offset) => (if |f| < offset + |buf| then offset + |buf| else |f|) case Truncate(size) => size)
            && (x < |g| ==> g[x] == if Stores(op, x) then op.buf[x - op.offset] else if x < |f| then f[x] else 0)
  {
  }

  /** Behind the end of the file there is nothing but zeros to be found later. */
  lemma {:induction false} NothingBehindTheEnd(original: Bytes, ops: seq<Op>, x: nat)
    requires x >= LengthAfter(|original|, ops)
    ensures ByteAfter(original, ops, x) == 0
  {
    if ops != [] && !CutsOff(ops[|ops| - 1], x) {
      NothingBehindTheEnd(original, ops[..|ops| - 1], x);
    }
  }

  /** A run of writes and truncates on a plain file, byte for byte. */
  lemma {:induction false} FileAfter(original: Bytes, ops: seq<Op>)
    ensures var f := ApplyAll(original, ops);
            |f| == LengthAfter(|original|, ops) && forall x: nat | x < |f| :: f[x] == ByteAfter(original, ops, x)
  {
    if ops != [] {
      var before := ops[..|ops| - 1];
      FileAfter(original, before);
      var g, op := ApplyAll(original, before), ops[|ops| - 1];
      AppliedByte(g, op, 0);
      hide Apply;
      forall x: nat | x < |ApplyAll(original, ops)| ensures ApplyAll(original, ops)[x] == ByteAfter(original, ops, x) {
        AppliedByte(g, op, x);
        if x >= |g| {
          NothingBehindTheEnd(original, before, x);
        }
      }
    }
  }

  /** The last write that stores a byte at x decides it, unless the file was cut before x afterwards. */
  lemma {:induction false} LastWriterWins(original: Bytes, ops: seq<Op>, i: nat, x: nat)
    requires i < |ops| && Stores(ops[i], x)
    requires forall j | i < j < |ops| :: !Stores(ops[j], x) && !CutsOff(ops[j], x)
    ensures x < |ApplyAll(original, ops)| && ApplyAll(original, ops)[x] == ops[i].buf[x - ops[i].offset]
  {
    var before := ops[..|ops| - 1];
    FileAfter(original, ops);
    if i < |ops| - 1 {
      LastWriterWins(original, before, i, x);
      FileAfter(original, before);
    }
  }

  /** A byte that no write stored since the last cut before it is the original one if there was no such cut, or else 0. */
  lemma {:induction false} UnwrittenByte(original: Bytes, ops: seq<Op>, x: nat)
    requires x < |ApplyAll(original, ops)|
    requires forall i | 0 <= i < |ops| && Stores(ops[i], x) :: exists j :: i < j < |ops| && CutsOff(ops[j], x)
    ensures ApplyAll(original, ops)[x] ==
            if x < |original| && (forall j | 0 <= j < |ops| :: !CutsOff(ops[j], x)) then original[x] else 0
  {
    FileAfter(original, ops);
    Unwritten(original, ops, x);
  }

  lemma {:induction false} Unwritten(original: Bytes, ops: seq<Op>, x: nat)
    requires forall i | 0 <= i < |ops| && Stores(ops[i], x) :: exists j :: i < j < |ops| && CutsOff(ops[j], x)
    ensures ByteAfter(original, ops, x) ==
            if x < |original| && (forall j | 0 <= j < |ops| :: !CutsOff(ops[j], x)) then original[x] else 0
  {
    if ops != [] {
      var last := |ops| - 1;
      assert !Stores(ops[last], x);
      if !CutsOff(ops[last], x) {
        forall i | 0 <= i < last && Stores(ops[..last][i], x) ensures exists j :: i < j < last && CutsOff(ops[..last][j], x) {
          assert Stores(ops[i], x);
          var j :| i < j < |ops| && CutsOff(ops[j], x);
          assert CutsOff(ops[..last][j], x);
        }
        Unwritten(original, ops[..last], x);
        assert forall j | 0 <= j < last :: ops[..last][j] == ops[j];
      }
    }
  }

  // ---------------------------------------------------------------- The overlay

  /** What a reader sees. */
  ghost function Seen(original: Bytes, data: Bytes, ivs: seq<Interval>): (r: Bytes)
    ensures |r| == |data|
  {
    seq(|data|, x requires 0 <= x < |data| =>
      if Covers(ivs, x) || x >= |original| then data[x] else original[x])
  }

  predicate Recorded(index: seq<Record>, x: nat) {
    exists i :: 0 <= i < |index| && index[i].offset <= x < index[i].offset + index[i].length
  }

  lemma RecordedSnoc(index: seq<Record>, r: Record, x: nat)
    ensures Recorded(index + [r], x) <==> Recorded(index, x) || r.offset <= x < r.offset + r.length
  {
    var t := index + [r];
    if Recorded(index, x) {
      var i :| 0 <= i < |index| && index[i].offset <= x < index[i].offset + index[i].length;
      assert t[i] == index[i];
    }
    assert t[|index|] == r;
  }

  /** The index describes exactly the covered points. */
  ghost predicate Describes(index: seq<Record>, ivs: seq<Interval>) {
    && (forall x: nat :: Recorded(index, x) <==> Covers(ivs, x))
    && (forall i :: 0 <= i < |index| ==> index[i].length > 0)
  }

  lemma DescribesMore(index: seq<Record>, ivs: seq<Interval>, r: Record, ivs': seq<Interval>)
    requires Describes(index, ivs) && r.length > 0 && AddsRange(ivs, ivs', r.offset, r.offset + r.length)
    ensures Describes(index + [r], ivs')
  {
    forall x: nat ensures Recorded(index + [r], x) <==> Covers(ivs', x) {
      RecordedSnoc(index, r, x);
    }
  }

  /** Every uncovered byte below the current size is one of the original's. */
  ghost predicate Grounded(original: Bytes, size: nat, ivs: seq<Interval>) {
    forall x: nat :: x < size && !Covers(ivs, x) ==> x < |original|
  }

  class OpenFile {
    ghost const original: Bytes
    const writeintervals: Intervals
    var datafile: Bytes
    var indexfile: seq<Record>
    var indexoff: nat
    var currentsize: nat

    ghost predicate Valid()
      reads this, writeintervals
    {
      var ivs := writeintervals.Contents();
      && Canonical(ivs) && currentsize == |datafile|
      && Grounded(original, currentsize, ivs)
      && indexoff == |indexfile| && Describes(indexfile, ivs)
    }

    ghost function View(): (r: Bytes)
      reads this, writeintervals
    {
      Seen(original, datafile, writeintervals.Contents())
    }

    /** The session starts with the remote file untouched. */
    constructor (ghost original: Bytes, initialsize: nat)
      requires initialsize == |original|
      ensures Valid() && View() == original && fresh(writeintervals) && this.original == original
    {
      this.original := original;
      writeintervals := new Intervals();
      datafile := Zeros(initialsize);
      indexfile, indexoff, currentsize := [], 0, initialsize;
    }

    /** Appends a record at the index offset and adds its interval. */
    method AppendRecord(offset: nat, length: nat)
      requires length > 0 && Canonical(writeintervals.Contents())
      requires indexoff == |indexfile| && Describes(indexfile, writeintervals.Contents())
      modifies this`indexfile, this`indexoff, writeintervals
      ensures Canonical(writeintervals.Contents()) && indexoff == |indexfile|
      ensures Describes(indexfile, writeintervals.Contents())
      ensures AddsRange(old(writeintervals.Contents()), writeintervals.Contents(), offset, offset + length)
    {
      ghost var before := writeintervals.Contents();
      indexfile := indexfile[..indexoff] + [Record(offset, length)];
      indexoff := indexoff + 1;
      writeintervals.Add(offset, offset + length);
      assert old(indexfile)[..old(indexoff)] == old(indexfile);
      DescribesMore(old(indexfile), before, Record(offset, length), writeintervals.Contents());
    }

    /** Fills a file that is too short up to `size`; the new part counts as written. */
    method CheckSizeOk(size: nat)
      requires Valid()
      modifies this, writeintervals
      ensures Valid()
      ensures View() == Resized(old(View()), Max(|old(View())|, size))
    {
      if currentsize < size {
        ghost var before := writeintervals.Contents();
        datafile := Resized(datafile, size);
        AppendRecord(currentsize, size - currentsize);
        currentsize := size;
        ExtendSeen(original, old(datafile), before, writeintervals.Contents(), size);
      }
    }

    method WriteModified(buf: Bytes, offset: nat)
      requires Valid() && buf != []
      modifies this, writeintervals
      ensures Valid()
      ensures View() == Written(old(View()), buf, offset)
    {
      CheckSizeOk(offset);
      ghost var mid, data := View(), datafile;
      ghost var before := writeintervals.Contents();
      datafile := Written(datafile, buf, offset);
      AppendRecord(offset, |buf|);
      if currentsize < offset + |buf| {
        currentsize := offset + |buf|;
      }
      WriteSeen(original, data, before, writeintervals.Contents(), buf, offset);
      FillThenWrite(old(View()), buf, offset);
    }

    method Ftruncate(size: nat)
      requires Valid()
      modifies this, writeintervals
      ensures Valid()
      ensures View() == Resized(old(View()), size)
    {
      if currentsize == size {
        return;
      }
      CheckSizeOk(size);
      if currentsize != size {
        ghost var data := datafile;
        datafile := Resized(datafile, size);
        CutSeen(original, data, writeintervals.Contents(), size);
      }
      currentsize := size;
    }
  }

  lemma ExtendSeen(original: Bytes, data: Bytes, ivs: seq<Interval>, ivs': seq<Interval>, size: nat)
    requires |data| < size && Grounded(original, |data|, ivs) && AddsRange(ivs, ivs', |data|, size)
    ensures Seen(original, Resized(data, size), ivs') == Resized(Seen(original, data, ivs), size)
    ensures Grounded(original, size, ivs')
  {
  }

  lemma CutSeen(original: Bytes, data: Bytes, ivs: seq<Interval>, size: nat)
    requires size <= |data| && Grounded(original, |data|, ivs)
    ensures Seen(original, Resized(data, size), ivs) == Resized(Seen(original, data, ivs), size)
    ensures Grounded(original, size, ivs)
  {
  }

  lemma WriteSeen(original: Bytes, data: Bytes, ivs: seq<Interval>, ivs': seq<Interval>, buf: Bytes, offset: nat)
    requires offset <= |data| && Grounded(original, |data|, ivs) && AddsRange(ivs, ivs', offset, offset + |buf|)
    ensures Seen(original, Written(data, buf, offset), ivs') == Written(Seen(original, data, ivs), buf, offset)
    ensures Grounded(original, |Written(data, buf, offset)|, ivs')
  {
  }

  lemma FillThenWrite(f: Bytes, buf: Bytes, offset: nat)
    ensures Written(Resized(f, Max(|f|, offset)), buf, offset) == Written(f, buf, offset)
  {
  }

  // ---------------------------------------------------------------- Whole sessions and reloading

  const LOAD_BATCH: nat := 512

  lemma NothingRecorded()
    ensures Describes([], []) && Canonical([])
  {
  }

  /** psync_fs_load_interval_tree: adds the records of the index, batch by batch. */
  method LoadIntervalTree(index: seq<Record>, tree: Intervals) returns (cnt: nat)
    requires tree.Contents() == []
    requires forall i :: 0 <= i < |index| ==> index[i].length > 0
    modifies tree
    ensures cnt == |index|
    ensures Canonical(tree.Contents()) && Describes(index, tree.Contents())
  {
    cnt := |index|;
    var i := 0;
    assert index[..0] == [];
    NothingRecorded();
    hide Describes, Canonical, Covers, AddsRange;
    while i < cnt
      invariant 0 <= i <= cnt == |index|
      invariant Canonical(tree.Contents()) && Describes(index[..i], tree.Contents())
    {
      var rd := if LOAD_BATCH > cnt - i then cnt - i else LOAD_BATCH;
      var records := index[i..i + rd];
      for j := 0 to rd
        invariant Canonical(tree.Contents()) && Describes(index[..i + j], tree.Contents())
      {
        ghost var before := tree.Contents();
        tree.Add(records[j].offset, records[j].offset + records[j].length);
        assert records[j] == index[i + j];
        DescribesMore(index[..i + j], before, records[j], tree.Contents());
        assert index[..i + j] + [records[j]] == index[..i + j + 1];
      }
      i := i + rd;
    }
    assert index[..i] == index;
  }

  /** One index describes one canonical list, so loading it rebuilds the tree that wrote it. */
  lemma ReloadRebuilds(index: seq<Record>, ivs: seq<Interval>, loaded: seq<Interval>)
    requires Canonical(ivs) && Canonical(loaded) && Describes(index, ivs) && Describes(index, loaded)
    ensures ivs == loaded
  {
    CanonicalUnique(ivs, loaded);
  }

  /** Any run of writes and truncates acts like the same run on a plain file, and the index reloads. */
  method RunSession(ghost original: Bytes, initialsize: nat, ops: seq<Op>) returns (of: OpenFile, loaded: Intervals)
    requires initialsize == |original|
    requires forall i :: 0 <= i < |ops| && ops[i].Write? ==> ops[i].buf != []
    ensures of.Valid() && of.View() == ApplyAll(original, ops)
    ensures of.currentsize == LengthAfter(|original|, ops) == |of.View()|
    ensures forall x: nat | x < |of.View()| :: of.View()[x] == ByteAfter(original, ops, x)
    ensures loaded.Contents() == of.writeintervals.Contents()
  {
    of := new OpenFile(original, initialsize);
    for i := 0 to |ops|
      invariant of.Valid() && of.View() == ApplyAll(original, ops[..i])
      invariant fresh(of) && fresh(of.writeintervals)
    {
      assert ops[..i + 1][..i] == ops[..i];
      match ops[i] {
        case Write(buf, offset) => of.WriteModified(buf, offset);
        case Truncate(size) => of.Ftruncate(size);
      }
    }
    assert ops[..|ops|] == ops;
    FileAfter(original, ops);
    loaded := new Intervals();
    var _ := LoadIntervalTree(of.indexfile, loaded);
    ReloadRebuilds(of.indexfile, of.writeintervals.Contents(), loaded.Contents());
  }
}
