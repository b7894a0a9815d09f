/**
 * The earlier engine (lsm_tree.c): segments are merged two at a time by a
 * streaming two-cursor merge, a list of segments is compacted by folding
 * that merge from the oldest segment on, and a full memtable is flushed to
 * the next free segment slot, compacting first when every slot is taken.
 * Segments are modelled at the level of records: a segment is the sequence
 * of records its lines denote, oldest segment first.
 */
module Compaction {
  import opened Common
  import opened Tree
  import opened Memtable
  import opened Segment

  /** Memtable key count that triggers a flush in this engine (lsm_tree.h). */
  const LEGACY_MAX_KEYS_IN_TREE: int := 10

  // ---------------------------------------------------------------------
  // The merge as intended
  // ---------------------------------------------------------------------

  /**
   * The merge of an older segment `a` with a newer segment `b`: records in
   * key order, and for a key held by both, the newer record only.
   */
  function Merge(a: seq<Record>, b: seq<Record>): seq<Record>
    decreases |a| + |b|
  {
    if a == [] then b
    else if b == [] then a
    else if a[0].key < b[0].key then [a[0]] + Merge(a[1..], b)
    else if a[0].key > b[0].key then [b[0]] + Merge(a, b[1..])
    else [b[0]] + Merge(a[1..], b[1..])
  }

  /** Every record of the merge comes from one of the inputs, and every key of the inputs is kept. */
  lemma {:induction false} MergeKeys(a: seq<Record>, b: seq<Record>)
    ensures KeySet(Merge(a, b)) == KeySet(a) + KeySet(b)
    ensures forall r :: r in Merge(a, b) ==> r in a || r in b
    decreases |a| + |b|
  {
    if a != [] && b != [] {
      KeySetFront(a[0], a[1..]);
      KeySetFront(b[0], b[1..]);
      assert a == [a[0]] + a[1..] && b == [b[0]] + b[1..];
      if a[0].key < b[0].key {
        MergeKeys(a[1..], b);
        KeySetFront(a[0], Merge(a[1..], b));
      } else if a[0].key > b[0].key {
        MergeKeys(a, b[1..]);
        KeySetFront(b[0], Merge(a, b[1..]));
      } else {
        MergeKeys(a[1..], b[1..]);
        KeySetFront(b[0], Merge(a[1..], b[1..]));
      }
    }
  }

  lemma KeySetFront(r: Record, s: seq<Record>)
    ensures KeySet([r] + s) == {r.key} + KeySet(s)
    ensures forall x :: x in [r] + s <==> x == r || x in s
  {
  }

  /** A record put in front of a strictly ascending sequence of larger keys. */
  lemma AscendingCons(r: Record, s: seq<Record>)
    requires StrictlyAscending(s) && forall x :: x in s ==> r.key < x.key
    ensures StrictlyAscending([r] + s)
  {
    forall i, j | 0 <= i < j < |[r] + s| ensures ([r] + s)[i].key < ([r] + s)[j].key {
      if i == 0 {
        assert ([r] + s)[j] == s[j - 1];
        assert s[j - 1] in s;
      } else {
        assert ([r] + s)[i] == s[i - 1] && ([r] + s)[j] == s[j - 1];
      }
    }
  }

  /** Every record after the first of a strictly ascending sequence has a larger key. */
  lemma AscendingHead(s: seq<Record>)
    requires StrictlyAscending(s) && s != []
    ensures StrictlyAscending(s[1..])
    ensures forall x :: x in s[1..] ==> s[0].key < x.key
  {
    forall x | x in s[1..] ensures s[0].key < x.key {
      var k :| 0 <= k < |s[1..]| && s[1..][k] == x;
      assert s[k + 1] == x;
    }
  }

  /** Merging strictly ascending segments gives a strictly ascending segment. */
  lemma {:induction false} MergeAscending(a: seq<Record>, b: seq<Record>)
    requires StrictlyAscending(a) && StrictlyAscending(b)
    ensures StrictlyAscending(Merge(a, b))
    decreases |a| + |b|
  {
    if a != [] && b != [] {
      AscendingHead(a);
      AscendingHead(b);
      assert forall x :: x in a ==> x == a[0] || x in a[1..] by {
        assert a == [a[0]] + a[1..];
      }
      assert forall x :: x in b ==> x == b[0] || x in b[1..] by {
        assert b == [b[0]] + b[1..];
      }
      if a[0].key < b[0].key {
        MergeAscending(a[1..], b);
        MergeKeys(a[1..], b);
        AscendingCons(a[0], Merge(a[1..], b));
      } else if a[0].key > b[0].key {
        MergeAscending(a, b[1..]);
        MergeKeys(a, b[1..]);
        AscendingCons(b[0], Merge(a, b[1..]));
      } else {
        MergeAscending(a[1..], b[1..]);
        MergeKeys(a[1..], b[1..]);
        AscendingCons(b[0], Merge(a[1..], b[1..]));
      }
    }
  }

  /** Map helper: a binding overridden by a later one for the same key disappears. */
  lemma Shadow(x: map<int, string>, k: int, u: string, w: string, y: map<int, string>)
    requires k !in x
    ensures map[k := u] + x + (map[k := w] + y) == map[k := w] + x + y
  {
  }

  /** Map helper: a binding for a key the rest does not hold moves to the front. */
  lemma MoveFront(x: map<int, string>, k: int, w: string, y: map<int, string>)
    requires k !in x
    ensures map[k := w] + (x + y) == x + (map[k := w] + y)
  {
  }

  /**
   * Merging strictly ascending segments denotes the older segment's map
   * overridden by the newer one's.
   */
  lemma {:induction false} MergeMap(a: seq<Record>, b: seq<Record>)
    requires StrictlyAscending(a) && StrictlyAscending(b)
    ensures AsMap(Merge(a, b)) == AsMap(a) + AsMap(b)
    decreases |a| + |b|
  {
    if a == [] {
      assert AsMap(a) == map[];
    } else if b == [] {
      assert AsMap(b) == map[];
    } else {
      AscendingHead(a);
      AscendingHead(b);
      if a[0].key < b[0].key {
        MergeMap(a[1..], b);
        MergeMapLess(a, b);
      } else if a[0].key > b[0].key {
        MergeMap(a, b[1..]);
        AscendingAbsent(a, b[0].key);
        MergeMapGreater(a, b);
      } else {
        MergeMap(a[1..], b[1..]);
        AscendingAbsent(a, b[0].key);
        MergeMapEqual(a, b);
      }
    }
  }

  /** The map of a sequence with one record in front. */
  lemma AsMapFront(r: Record, s: seq<Record>)
    ensures AsMap([r] + s) == map[r.key := r.value] + AsMap(s)
  {
    AsMapCons([r] + s);
    assert ([r] + s)[1..] == s;
  }

  lemma MergeMapLess(a: seq<Record>, b: seq<Record>)
    requires a != [] && b != [] && a[0].key < b[0].key
    requires AsMap(Merge(a[1..], b)) == AsMap(a[1..]) + AsMap(b)
    ensures AsMap(Merge(a, b)) == AsMap(a) + AsMap(b)
  {
    var m := map[a[0].key := a[0].value];
    assert Merge(a, b) == [a[0]] + Merge(a[1..], b);
    AsMapFront(a[0], Merge(a[1..], b));
    AsMapCons(a);
    Assoc(m, AsMap(a[1..]), AsMap(b));
  }

  lemma MergeMapGreater(a: seq<Record>, b: seq<Record>)
    requires a != [] && b != [] && a[0].key > b[0].key && b[0].key !in AsMap(a)
    requires AsMap(Merge(a, b[1..])) == AsMap(a) + AsMap(b[1..])
    ensures AsMap(Merge(a, b)) == AsMap(a) + AsMap(b)
  {
    assert Merge(a, b) == [b[0]] + Merge(a, b[1..]);
    AsMapFront(b[0], Merge(a, b[1..]));
    AsMapCons(b);
    MoveFront(AsMap(a), b[0].key, b[0].value, AsMap(b[1..]));
  }

  lemma MergeMapEqual(a: seq<Record>, b: seq<Record>)
    requires a != [] && b != [] && a[0].key == b[0].key && a[0].key !in AsMap(a[1..])
    requires AsMap(Merge(a[1..], b[1..])) == AsMap(a[1..]) + AsMap(b[1..])
    ensures AsMap(Merge(a, b)) == AsMap(a) + AsMap(b)
  {
    assert Merge(a, b) == [b[0]] + Merge(a[1..], b[1..]);
    AsMapFront(b[0], Merge(a[1..], b[1..]));
    AsMapCons(a);
    AsMapCons(b);
    Shadow(AsMap(a[1..]), a[0].key, a[0].value, b[0].value, AsMap(b[1..]));
    Assoc(map[b[0].key := b[0].value], AsMap(a[1..]), AsMap(b[1..]));
  }

  /** Map helper: union is associative. */
  lemma Assoc(x: map<int, string>, y: map<int, string>, z: map<int, string>)
    ensures x + (y + z) == x + y + z
  {
  }

  /** A key below the first key of a strictly ascending segment is not in its map, nor is the first key in the map of the rest. */
  lemma AscendingAbsent(s: seq<Record>, k: int)
    requires StrictlyAscending(s) && s != []
    ensures s[0].key !in AsMap(s[1..])
    ensures k < s[0].key ==> k !in AsMap(s)
  {
    AscendingHead(s);
    AsMapKeys(s);
    AsMapKeys(s[1..]);
    assert s == [s[0]] + s[1..];
  }

  // ---------------------------------------------------------------------
  // merge_files as written
  // ---------------------------------------------------------------------

  /**
   * The merge loop of merge_files as written, right after its reads. `i` and
   * `j` count the records read from `a` and `b`, `bufA` and `bufB` are the
   * line buffers (fgets at end of file leaves a buffer as it was), and `okA`,
   * `okB` say whether the last read of each file returned a line.
   * Both files done: stop. One file done: write the buffer chosen at
   * lsm_tree.c:176, which is the finished file's buffer, then the rest of the
   * other file. Both lines present: equal keys write `a`'s line and advance
   * both; otherwise the smaller key is written and only its file advances.
   */
  function AsWrittenStep(a: seq<Record>, b: seq<Record>, i: nat, j: nat,
                         bufA: Record, bufB: Record, okA: bool, okB: bool): seq<Record>
    requires i <= |a| && j <= |b|
    decreases |a| - i + |b| - j + (if okA then 1 else 0) + (if okB then 1 else 0), 0
  {
    if !okA && !okB then []
    else if !okA || !okB then
      [if okB then bufA else bufB] + (if okA then a[i..] else b[j..])
    else if bufA.key == bufB.key then
      [bufA] + AsWrittenRead(a, b, i, j, bufA, bufB, true, true)
    else if bufA.key > bufB.key then
      [bufB] + AsWrittenRead(a, b, i, j, bufA, bufB, false, true)
    else
      [bufA] + AsWrittenRead(a, b, i, j, bufA, bufB, true, false)
  }

  /** The reads at the top of the merge loop: one fgets per file whose cursor flag is set. */
  function AsWrittenRead(a: seq<Record>, b: seq<Record>, i: nat, j: nat,
                         bufA: Record, bufB: Record, incrA: bool, incrB: bool): seq<Record>
    requires i <= |a| && j <= |b|
    decreases |a| - i + |b| - j + (if incrA then 0 else 1) + (if incrB then 0 else 1), 1
  {
    var i', bufA', okA' := if incrA && i < |a| then i + 1 else i,
                           if incrA && i < |a| then a[i] else bufA,
                           !incrA || i < |a|;
    var j', bufB', okB' := if incrB && j < |b| then j + 1 else j,
                           if incrB && j < |b| then b[j] else bufB,
                           !incrB || j < |b|;
    AsWrittenStep(a, b, i', j', bufA', bufB', okA', okB')
  }

  /**
   * merge_files as written, at the level of records, with the initial
   * (uninitialised) contents of the two line buffers as parameters.
   */
  function MergeAsWritten(a: seq<Record>, b: seq<Record>, bufA: Record, bufB: Record): seq<Record>
  {
    AsWrittenRead(a, b, 0, 0, bufA, bufB, true, true)
  }

  /** Equal keys: the code keeps the older segment's record, although `b` is the newer one. */
  lemma MergeAsWrittenKeepsOlder(bufA: Record, bufB: Record)
    ensures MergeAsWritten([Record(1, "old")], [Record(1, "new")], bufA, bufB) == [Record(1, "old")]
    ensures Merge([Record(1, "old")], [Record(1, "new")]) == [Record(1, "new")]
  {
    var a, b := [Record(1, "old")], [Record(1, "new")];
    assert AsWrittenRead(a, b, 1, 1, a[0], b[0], true, true) == [];
    assert Merge(a[1..], b[1..]) == [];
  }

  /**
   * One file runs out: the code writes the finished file's stale buffer and
   * drops the other file's pending line. Merging 1,3 with 2 gives 1,2,2.
   */
  lemma MergeAsWrittenRemainder(bufA: Record, bufB: Record)
    ensures MergeAsWritten([Record(1, "x"), Record(3, "z")], [Record(2, "y")], bufA, bufB)
      == [Record(1, "x"), Record(2, "y"), Record(2, "y")]
    ensures Merge([Record(1, "x"), Record(3, "z")], [Record(2, "y")])
      == [Record(1, "x"), Record(2, "y"), Record(3, "z")]
  {
    var a, b := [Record(1, "x"), Record(3, "z")], [Record(2, "y")];
    assert a[2..] == [];
    assert AsWrittenStep(a, b, 2, 1, a[1], b[0], true, false) == [b[0]] + a[2..];
    assert AsWrittenRead(a, b, 2, 1, a[1], b[0], false, true) == [b[0]];
    assert AsWrittenStep(a, b, 2, 1, a[1], b[0], true, true) == [b[0], b[0]];
    assert AsWrittenRead(a, b, 1, 1, a[0], b[0], true, false) == [b[0], b[0]];
    assert AsWrittenStep(a, b, 1, 1, a[0], b[0], true, true) == [a[0], b[0], b[0]];
    assert a[1..] == [Record(3, "z")] && a[1..][1..] == [] && b[1..] == [];
    assert Merge(a[1..], b) == [b[0]] + Merge(a[1..], b[1..]);
  }

  /**
   * An empty older segment: the code writes the never-filled buffer of `a`
   * and drops the first record of `b`.
   */
  lemma MergeAsWrittenEmpty(bufA: Record, bufB: Record)
    ensures MergeAsWritten([], [Record(5, "v")], bufA, bufB) == [bufA]
    ensures Merge([], [Record(5, "v")]) == [Record(5, "v")]
  {
    var b := [Record(5, "v")];
    assert b[1..] == [];
    assert AsWrittenStep([], b, 0, 1, bufA, b[0], false, true) == [bufA] + b[1..];
  }

  // ---------------------------------------------------------------------
  // merge_files, corrected
  // ---------------------------------------------------------------------

  /**
   * merge_files with the equal-key winner and the remainder buffer
   * corrected: the loop of the source with its cursor flags, reading one
   * record per set flag, and a copy loop for the rest of the file that is
   * not yet finished.
   */
  method MergeFiles(a: seq<Record>, b: seq<Record>) returns (out: seq<Record>)
    ensures out == Merge(a, b)
  {
    var i, j := 0, 0;
    var lineA, lineB := Record(0, ""), Record(0, "");
    var okA, okB := false, false;
    var incrA, incrB := true, true;
    var keepMerging := true;
    out := [];
    while keepMerging
      invariant 0 <= i <= |a| && 0 <= j <= |b|
      invariant incrA || incrB
      invariant !incrA ==> 0 < i
      invariant !incrB ==> 0 < j
      invariant keepMerging ==> out + Merge(Pending(a, i, incrA, lineA), Pending(b, j, incrB, lineB)) == Merge(a, b)
      invariant !keepMerging ==> out == Merge(a, b)
      decreases keepMerging, |a| - i + |b| - j + (if incrA then 0 else 1) + (if incrB then 0 else 1)
    {
      ghost var pa, pb := Pending(a, i, incrA, lineA), Pending(b, j, incrB, lineB);
      lineA, i, okA := NextLine(a, i, incrA, lineA);
      lineB, j, okB := NextLine(b, j, incrB, lineB);
      if !okA && !okB {
        keepMerging := false;
      } else if !okA || !okB {
        // the pending line of the file that is not finished, then the rest of that file
        var tempLine := if okA then lineA else lineB;
        var rest := if okA then a[i..] else b[j..];
        if okA {
          assert Merge(pa, pb) == pa;
        }
        out := CopyRest(out, tempLine, rest);
        keepMerging := false;
      } else {
        var emit;
        emit, incrA, incrB := CompareLines(lineA, lineB, a[i..], b[j..]);
        ghost var before := out;
        out := out + [emit];
        AppendOne(before, emit, Merge(Pending(a, i, incrA, lineA), Pending(b, j, incrB, lineB)));
      }
    }
  }

  /**
   * The comparison step of merge_files: the line to write and which
   * cursors to advance; for equal keys the newer file's line is written
   * and both cursors advance.
   */
  method CompareLines(lineA: Record, lineB: Record, ghost ra: seq<Record>, ghost rb: seq<Record>)
    returns (emit: Record, incrA: bool, incrB: bool)
    ensures incrA || incrB
    ensures Merge([lineA] + ra, [lineB] + rb)
      == [emit] + Merge(if incrA then ra else [lineA] + ra, if incrB then rb else [lineB] + rb)
  {
    MergeStep(lineA, ra, lineB, rb);
    if lineA.key == lineB.key {
      emit, incrA, incrB := lineB, true, true;
    } else if lineA.key > lineB.key {
      emit, incrA, incrB := lineB, false, true;
    } else {
      emit, incrA, incrB := lineA, true, false;
    }
  }

  lemma AppendOne(x: seq<Record>, r: Record, y: seq<Record>)
    ensures x + [r] + y == x + ([r] + y)
  {
  }

  /** The records of a file not yet written: the held line, when there is one, then the unread lines. */
  ghost function Pending(s: seq<Record>, k: int, incr: bool, held: Record): seq<Record>
    requires 0 <= k <= |s|
  {
    if incr then s[k..] else [held] + s[k..]
  }

  /**
   * The read step of merge_files: a new line is read only when the file's
   * cursor is to be advanced, otherwise the held line is used again.
   */
  method NextLine(s: seq<Record>, k: int, incr: bool, held: Record) returns (line: Record, k': int, ok: bool)
    requires 0 <= k <= |s|
    requires !incr ==> 0 < k
    ensures k' == (if incr && ok then k + 1 else k) && k' <= |s|
    ensures ok ==> 0 < k'
    ensures ok ==> Pending(s, k, incr, held) == [line] + s[k'..]
    ensures !ok ==> Pending(s, k, incr, held) == [] && incr
  {
    line, k', ok := held, k, true;
    if incr {
      if k < |s| {
        line := s[k];
        k' := k + 1;
      } else {
        ok := false;
      }
    }
  }

  /** One step of the merge when both files still hold a line. */
  lemma MergeStep(x: Record, ra: seq<Record>, y: Record, rb: seq<Record>)
    ensures x.key == y.key ==> Merge([x] + ra, [y] + rb) == [y] + Merge(ra, rb)
    ensures x.key > y.key ==> Merge([x] + ra, [y] + rb) == [y] + Merge([x] + ra, rb)
    ensures x.key < y.key ==> Merge([x] + ra, [y] + rb) == [x] + Merge(ra, [y] + rb)
  {
    assert ([x] + ra)[1..] == ra && ([y] + rb)[1..] == rb;
  }

  /** The copy loop of merge_files: write `first`, then every line of `rest`. */
  method CopyRest(out: seq<Record>, first: Record, rest: seq<Record>) returns (out': seq<Record>)
    ensures out' == out + ([first] + rest)
  {
    out' := out + [first];
    var k := 0;
    while k < |rest|
      invariant 0 <= k <= |rest|
      invariant out' == out + [first] + rest[..k]
    {
      out' := out' + [rest[k]];
      k := k + 1;
      assert rest[..k] == rest[..k - 1] + [rest[k - 1]];
    }
    assert rest[..k] == rest;
  }

  // ---------------------------------------------------------------------
  // compact
  // ---------------------------------------------------------------------

  /** The left fold of the merge over the segments, oldest first. */
  function Compacted(files: seq<seq<Record>>): seq<Record>
    requires files != []
    decreases |files|
  {
    if |files| == 1 then files[0] else Merge(Compacted(files[..|files| - 1]), files[|files| - 1])
  }

  /** The key/value map a list of segments denotes: later segments override earlier ones. */
  function Overlay(files: seq<seq<Record>>): map<int, string>
    decreases |files|
  {
    if files == [] then map[] else Overlay(files[..|files| - 1]) + AsMap(files[|files| - 1])
  }

  predicate AllAscending(files: seq<seq<Record>>)
  {
    forall i :: 0 <= i < |files| ==> StrictlyAscending(files[i])
  }

  /**
   * Compacting strictly ascending segments gives one strictly ascending
   * segment that denotes what the whole list denoted.
   */
  lemma {:induction false} CompactedProperties(files: seq<seq<Record>>)
    requires files != [] && AllAscending(files)
    ensures StrictlyAscending(Compacted(files))
    ensures AsMap(Compacted(files)) == Overlay(files)
    decreases |files|
  {
    var n := |files|;
    if n == 1 {
      assert files[..0] == [];
    } else {
      var init := files[..n - 1];
      CompactedProperties(init);
      MergeAscending(Compacted(init), files[n - 1]);
      MergeMap(Compacted(init), files[n - 1]);
    }
  }

  /**
   * compact: no result for a missing list or fewer than two segments;
   * otherwise the first segment merged with each following one in turn.
   */
  method Compact(numSegmentFiles: int, segmentFiles: Option<seq<seq<Record>>>) returns (r: Option<seq<Record>>)
    requires segmentFiles.Some? ==> numSegmentFiles <= |segmentFiles.value|
    ensures segmentFiles.None? || numSegmentFiles < 2 ==> r == None
    ensures segmentFiles.Some? && numSegmentFiles >= 2 ==>
      r == Some(Compacted(segmentFiles.value[..numSegmentFiles]))
  {
    if segmentFiles.None? {
      return None;
    }
    if numSegmentFiles < 2 {
      return None;
    }
    var files := segmentFiles.value;
    var segmentFile1 := files[0];
    var newSegment := segmentFile1;
    assert files[..1][..0] == [];
    for i := 1 to numSegmentFiles
      invariant segmentFile1 == Compacted(files[..i])
    {
      var segmentFile2 := files[i];
      newSegment := MergeFiles(segmentFile1, segmentFile2);
      assert files[..i + 1][..i] == files[..i];
      segmentFile1 := newSegment;
    }
    return Some(segmentFile1);
  }

  // ---------------------------------------------------------------------
  // The earlier engine's segment slots
  // ---------------------------------------------------------------------

  /** The reset loop of run_compaction: every slot from `from` on is emptied. */
  method EmptySlotsFrom(slots: array<Option<seq<Record>>>, from: int)
    requires 0 <= from <= slots.Length
    modifies slots
    ensures forall k :: 0 <= k < from ==> slots[k] == old(slots[k])
    ensures forall k :: from <= k < slots.Length ==> slots[k] == None
  {
    for i := from to slots.Length
      invariant forall k :: 0 <= k < from ==> slots[k] == old(slots[k])
      invariant forall k :: from <= k < i ==> slots[k] == None
    {
      slots[i] := None;
    }
  }

  /** init_segments: MAX_SEGMENTS empty slots. */
  method InitSegments() returns (segments: array<Option<seq<Record>>>)
    ensures fresh(segments) && segments.Length == MAX_SEGMENTS
    ensures forall i :: 0 <= i < MAX_SEGMENTS ==> segments[i] == None
  {
    segments := new Option<seq<Record>>[MAX_SEGMENTS];
    for i := 0 to MAX_SEGMENTS
      invariant forall k :: 0 <= k < i ==> segments[k] == None
    {
      segments[i] := None;
    }
  }

  /** The records of the occupied slots, oldest first. */
  function Occupied(slots: seq<Option<seq<Record>>>, n: int): seq<seq<Record>>
    requires 0 <= n <= |slots| && forall i :: 0 <= i < n ==> slots[i].Some?
  {
    seq(n, i requires 0 <= i < n => slots[i].value)
  }

  /** Filling the next free slot adds the newest file. */
  lemma OccupiedAppend(slots: seq<Option<seq<Record>>>, n: int, f: seq<Record>)
    requires 0 <= n < |slots| && forall i :: 0 <= i < n ==> slots[i].Some?
    requires AllAscending(Occupied(slots, n)) && StrictlyAscending(f)
    ensures Occupied(slots[n := Some(f)], n + 1) == Occupied(slots, n) + [f]
    ensures AllAscending(Occupied(slots[n := Some(f)], n + 1))
    ensures Overlay(Occupied(slots[n := Some(f)], n + 1)) == Overlay(Occupied(slots, n)) + AsMap(f)
  {
    var files := Occupied(slots, n);
    assert Occupied(slots[n := Some(f)], n + 1) == files + [f];
    OverlayAppend(files, f);
  }

  /** A single occupied slot holds one file, which is all the slots denote. */
  lemma OccupiedSingle(slots: seq<Option<seq<Record>>>, f: seq<Record>)
    requires |slots| >= 1 && slots[0] == Some(f) && StrictlyAscending(f)
    ensures Occupied(slots, 1) == [f]
    ensures AllAscending(Occupied(slots, 1)) && Overlay(Occupied(slots, 1)) == AsMap(f)
  {
    assert Occupied(slots, 1) == [f];
    assert [f][..0] == [];
  }

  /** A file added as the newest one overrides what the older ones denote. */
  lemma OverlayAppend(files: seq<seq<Record>>, f: seq<Record>)
    ensures Overlay(files + [f]) == Overlay(files) + AsMap(f)
  {
    assert (files + [f])[..|files|] == files;
  }

  /** The first `n` of the MAX_SEGMENTS slots are taken, each by an ascending file, and the rest are empty. */
  ghost predicate SlotsValid(slots: seq<Option<seq<Record>>>, n: int)
  {
    && |slots| == MAX_SEGMENTS
    && 0 <= n <= MAX_SEGMENTS
    && (forall i :: 0 <= i < MAX_SEGMENTS ==> (slots[i].Some? <==> i < n))
    && AllAscending(Occupied(slots, n))
  }

  class LegacyTree {
    var memtable: Memtable
    var segments: array<Option<seq<Record>>>
    var fullSegments: int
    ghost var Repr: set<object>

    ghost predicate Valid()
      reads this, Repr
    {
      && memtable in Repr && segments in Repr
      && Repr == {this, segments, memtable} + memtable.Repr
      && memtable.Valid()
      && segments.Length == MAX_SEGMENTS
      && SlotsValid(segments[..], fullSegments)
    }

    /** The key/value map the segments denote, newer segments overriding older ones. */
    ghost function Stored(): map<int, string>
      reads this, Repr
      requires Valid()
    {
      Overlay(Occupied(segments[..], fullSegments))
    }

    /**
     * init_lsm_tree of the earlier engine: empty slots and no segments. The
     * source allocates its memtable without initialising it; here it is the
     * empty memtable of memtable.c, with a zero key count.
     */
    constructor ()
      ensures Valid() && fresh(Repr)
      ensures fullSegments == 0 && Stored() == map[] && memtable.Contents() == map[]
    {
      memtable := new Memtable();
      var slots := InitSegments();
      segments := slots;
      fullSegments := 0;
      new;
      Repr := {this, segments, memtable} + memtable.Repr;
      assert Occupied(segments[..], 0) == [];
    }

    /**
     * run_compaction: nothing happens unless the memtable holds
     * LEGACY_MAX_KEYS_IN_TREE keys. Then, when every slot is taken, the
     * segments are compacted into slot 0; the memtable is written to the
     * next free slot and cleared. What the store holds overall does not
     * change: the memtable's map over the segments' map.
     */
    method RunCompaction()
      requires Valid()
      modifies Repr
      ensures Valid() && fresh(Repr - old(Repr))
      ensures old(memtable.countKeys) != LEGACY_MAX_KEYS_IN_TREE ==>
        fullSegments == old(fullSegments) && segments[..] == old(segments[..])
        && memtable.Contents() == old(memtable.Contents()) && memtable.countKeys == old(memtable.countKeys)
      ensures old(memtable.countKeys) == LEGACY_MAX_KEYS_IN_TREE ==>
        memtable.Contents() == map[] && memtable.countKeys == 0
        && fullSegments == (if old(fullSegments) == MAX_SEGMENTS then 2 else old(fullSegments) + 1)
        && segments[fullSegments - 1] == Some(InOrder(old(memtable.T)))
      ensures old(memtable.countKeys) == LEGACY_MAX_KEYS_IN_TREE && old(fullSegments) == MAX_SEGMENTS ==>
        segments[0] == Some(Merge(old(segments[0]).value, old(segments[1]).value))
      ensures old(memtable.countKeys) == LEGACY_MAX_KEYS_IN_TREE && old(fullSegments) < MAX_SEGMENTS ==>
        forall i :: 0 <= i < old(fullSegments) ==> segments[i] == old(segments[i])
      ensures old(memtable.countKeys) == LEGACY_MAX_KEYS_IN_TREE ==>
        Stored() == old(Stored()) + old(memtable.Contents())
    {
      if memtable.countKeys == LEGACY_MAX_KEYS_IN_TREE {
        if fullSegments == MAX_SEGMENTS {
          CompactSlots();
        }
        FlushMemtable();
      }
    }

    /** The compaction step of run_compaction: all slots merged into slot 0. */
    method CompactSlots()
      requires Valid() && fullSegments == MAX_SEGMENTS
      modifies segments, this
      ensures Valid() && Repr == old(Repr) && memtable == old(memtable) && segments == old(segments)
      ensures fullSegments == 1 && Stored() == old(Stored())
      ensures segments[0] == Some(Merge(old(segments[0]).value, old(segments[1]).value))
    {
      ghost var files := Occupied(segments[..], MAX_SEGMENTS);
      var r := Compact(MAX_SEGMENTS, Some([segments[0].value, segments[1].value]));
      assert [segments[0].value, segments[1].value][..MAX_SEGMENTS] == files;
      CompactedProperties(files);
      segments[0] := r;
      EmptySlotsFrom(segments, 1);
      fullSegments := 1;
      OccupiedSingle(segments[..], Compacted(files));
    }

    /** The flush step of run_compaction: the memtable goes to the next free slot and is cleared. */
    method FlushMemtable()
      requires Valid() && fullSegments < MAX_SEGMENTS
      modifies Repr
      ensures Valid() && fresh(Repr - old(Repr)) && segments == old(segments)
      ensures memtable.Contents() == map[] && memtable.countKeys == 0
      ensures fullSegments == old(fullSegments) + 1
      ensures segments[old(fullSegments)] == Some(InOrder(old(memtable.T)))
      ensures forall i :: 0 <= i < old(fullSegments) ==> segments[i] == old(segments[i])
      ensures Stored() == old(Stored()) + old(memtable.Contents())
    {
      ghost var slots, t := segments[..], memtable.T;
      var flushed := ParseSegment(InorderToFile(memtable.root, memtable.T));
      FlushedSegment(t);
      assert flushed == InOrder(t) && AsMap(flushed) == memtable.Contents();
      OccupiedAppend(slots, fullSegments, flushed);
      segments[fullSegments] := Some(flushed);
      fullSegments := fullSegments + 1;
      assert segments[..] == slots[fullSegments - 1 := Some(flushed)];
      assert SlotsValid(segments[..], fullSegments);
      assert Overlay(Occupied(segments[..], fullSegments)) == old(Stored()) + old(memtable.Contents());
      memtable.Clear();
      Repr := {this, segments, memtable} + memtable.Repr;
    }
  }
}
