/**
 * The engine of the store (src/lsm_tree.c). Every submission is appended to
 * the write-ahead log before it is applied to the memtable. A memtable that
 * has counted MAX_KEYS_IN_TREE keys is written to a new segment file, its keys
 * are pointed at that file in the hash index, and it is cleared; when every
 * segment slot is taken, the segments are first compacted into one file.
 *
 * The file system is a map from file names to the lines they hold. The names
 * the engine generates from the clock and a random digit are parameters.
 */
module Engine {
  import opened Common
  import opened Tree
  import opened Memtable
  import opened Index
  import opened Segment
  import opened Compaction

  /** The requests a user can submit (enum available_actions). */
  datatype Action = Add | Search | Delete | Flush | PrintMemtable | Exit

  datatype Submission = Submission(action: Action, key: int, value: string)

  /** How handle_submission ends: 0, -1, or the process dies. */
  datatype Outcome = Done | Failed | Died

  /** File name to the lines of the file. */
  type Disk = map<string, seq<string>>

  // ---------------------------------------------------------------------
  // Segment files
  // ---------------------------------------------------------------------

  /** search_segment: the value on the first line of the file that has `key`; none for a missing file. */
  function SearchSegment(disk: Disk, name: string, key: int): Option<string>
  {
    if name in disk then FindFirst(ParseSegment(disk[name]), key) else None
  }

  /** The search the index drives: the file the index names for `key`, if any, is searched. */
  function IndexedSearch(m: map<int, string>, disk: Disk, key: int): Option<string>
  {
    if key in m then SearchSegment(disk, m[key], key) else None
  }

  /** The first `n` slots hold names of files that exist. */
  predicate Filed(segments: seq<Option<string>>, n: int, disk: Disk)
  {
    0 <= n <= |segments| && forall i :: 0 <= i < n ==> segments[i].Some? && segments[i].value in disk
  }

  /**
   * The segment slots: the first `n` of MAX_SEGMENTS slots name existing
   * files, each a strictly ascending segment, and the others are empty.
   */
  predicate SlotsOk(segments: seq<Option<string>>, n: int, disk: Disk)
  {
    && |segments| == MAX_SEGMENTS && 0 <= n <= MAX_SEGMENTS
    && (forall i :: 0 <= i < MAX_SEGMENTS ==> (segments[i].Some? <==> i < n))
    && Filed(segments, n, disk)
    && (forall i :: 0 <= i < n ==> StrictlyAscending(ParseSegment(disk[segments[i].value])))
  }

  /** Writing a strictly ascending file and naming it in the next free slot keeps the slots in order. */
  lemma SlotsAppend(segments: seq<Option<string>>, n: int, disk: Disk, name: string, lines: seq<string>)
    requires SlotsOk(segments, n, disk) && n < MAX_SEGMENTS && StrictlyAscending(ParseSegment(lines))
    ensures SlotsOk(segments[n := Some(name)], n + 1, disk[name := lines])
    ensures name !in disk ==>
      SlotFiles(segments[n := Some(name)], n + 1, disk[name := lines]) == SlotFiles(segments, n, disk) + [ParseSegment(lines)]
  {
    var segments', disk' := segments[n := Some(name)], disk[name := lines];
    assert Filed(segments', n + 1, disk');
    if name !in disk {
      var files, files' := SlotFiles(segments, n, disk), SlotFiles(segments', n + 1, disk');
      forall i | 0 <= i < n ensures files'[i] == files[i] {
        assert segments[i].value != name;
      }
    }
  }

  /** The slots after a compaction: the compacted file first, the others empty. */
  function ResetSlots(name: string): (segments: seq<Option<string>>)
    ensures |segments| == MAX_SEGMENTS && segments[0] == Some(name)
    ensures forall i :: 1 <= i < MAX_SEGMENTS ==> segments[i] == None
  {
    [Some(name)] + seq(MAX_SEGMENTS - 1, _ => None)
  }

  /**
   * Replacing the files of all slots by the file of their compaction keeps
   * the slots in order and keeps what the segments denote.
   */
  lemma SlotsCompacted(segments: seq<Option<string>>, disk: Disk, name: string)
    requires SlotsOk(segments, MAX_SEGMENTS, disk)
    ensures
      var files := SlotFiles(segments, MAX_SEGMENTS, disk);
      var disk' := (disk - SlotNames(segments, MAX_SEGMENTS))[name := Lines(Compacted(files))];
      && SlotsOk(ResetSlots(name), 1, disk')
      && SlotFiles(ResetSlots(name), 1, disk') == [Compacted(files)]
      && Overlay(SlotFiles(ResetSlots(name), 1, disk')) == Overlay(files)
  {
    var files := SlotFiles(segments, MAX_SEGMENTS, disk);
    var merged := Compacted(files);
    var disk' := (disk - SlotNames(segments, MAX_SEGMENTS))[name := Lines(merged)];
    CompactedProperties(files);
    LinesRoundTrip(merged);
    SingleSlot(name, disk');
  }

  /** One slot naming a strictly ascending file: the slots hold that file and denote its map. */
  lemma SingleSlot(name: string, disk: Disk)
    requires name in disk && StrictlyAscending(ParseSegment(disk[name]))
    ensures SlotsOk(ResetSlots(name), 1, disk)
    ensures SlotFiles(ResetSlots(name), 1, disk) == [ParseSegment(disk[name])]
    ensures Overlay(SlotFiles(ResetSlots(name), 1, disk)) == AsMap(ParseSegment(disk[name]))
  {
    var f := ParseSegment(disk[name]);
    assert SlotFiles(ResetSlots(name), 1, disk) == [f];
    assert [f][..0] == [];
  }

  /**
   * Compaction leaves the index alone: a key the index points at a removed
   * input file is found nowhere by the indexed search afterwards. File names
   * are values here; in the program the index shares the name strings the
   * slot list held, so a stale entry may name freed memory instead.
   */
  lemma CompactionOrphans(m: map<int, string>, disk: Disk, names: set<string>, name: string, lines: seq<string>, k: int)
    requires k in m && m[k] in names && m[k] != name
    ensures IndexedSearch(m, (disk - names)[name := lines], k) == None
  {
  }

  /** SlotsAppend for the file a flushed memtable becomes. */
  lemma SlotsFlushed(segments: seq<Option<string>>, n: int, disk: Disk, name: string, t: GTree)
    requires SlotsOk(segments, n, disk) && n < MAX_SEGMENTS && Ordered(t)
    ensures SlotsOk(segments[n := Some(name)], n + 1, disk[name := Lines(InOrder(t))])
    ensures name !in disk ==>
      SlotFiles(segments[n := Some(name)], n + 1, disk[name := Lines(InOrder(t))]) == SlotFiles(segments, n, disk) + [InOrder(t)]
    ensures name !in disk ==>
      Overlay(SlotFiles(segments[n := Some(name)], n + 1, disk[name := Lines(InOrder(t))]))
      == Overlay(SlotFiles(segments, n, disk)) + MapOf(t)
  {
    FlushedSegment(t);
    SlotsAppend(segments, n, disk, name, Lines(InOrder(t)));
    OverlayAppend(SlotFiles(segments, n, disk), InOrder(t));
    InOrderMap(t);
  }

  /** The records of the files in the first `n` slots, oldest first. */
  function SlotFiles(segments: seq<Option<string>>, n: int, disk: Disk): (files: seq<seq<Record>>)
    requires Filed(segments, n, disk)
    ensures |files| == n
    ensures forall i :: 0 <= i < n ==> files[i] == ParseSegment(disk[segments[i].value])
  {
    seq(n, i requires 0 <= i < n && Filed(segments, n, disk) => ParseSegment(disk[segments[i].value]))
  }

  /** The names in the first `n` slots. */
  function SlotNames(segments: seq<Option<string>>, n: int): set<string>
    requires 0 <= n <= |segments|
  {
    set i | 0 <= i < n && segments[i].Some? :: segments[i].value
  }

  /** The value the newest file that holds `key` gives it, scanning from the last file back. */
  function NewestHit(files: seq<seq<Record>>, key: int): Option<string>
    decreases |files|
  {
    if files == [] then None
    else
      var hit := FindFirst(files[|files| - 1], key);
      if hit.Some? then hit else NewestHit(files[..|files| - 1], key)
  }

  /**
   * Scanning strictly ascending files from the newest back finds exactly
   * what the files denote together, newer files overriding older ones.
   */
  lemma {:induction false} NewestHitOverlay(files: seq<seq<Record>>, key: int)
    requires AllAscending(files)
    ensures NewestHit(files, key) == if key in Overlay(files) then Some(Overlay(files)[key]) else None
    decreases |files|
  {
    if files != [] {
      var n := |files|;
      var init := files[..n - 1];
      assert AllAscending(init) by {
        forall i | 0 <= i < |init| ensures StrictlyAscending(init[i]) {
          assert init[i] == files[i];
        }
      }
      NewestHitOverlay(init, key);
      FindFirstAsMap(files[n - 1], key);
    }
  }

  /**
   * A key of a flushed memtable that the index points at the flushed file
   * is found there by the indexed search, with the value the memtable held.
   */
  lemma FlushedFound(t: GTree, disk: Disk, name: string, m: map<int, string>, key: int)
    requires Ordered(t) && name in disk && disk[name] == Lines(InOrder(t))
    requires key in MapOf(t) && key in m && m[key] == name
    ensures IndexedSearch(m, disk, key) == Some(MapOf(t)[key])
  {
    FlushedSegment(t);
    FindFirstAsMap(InOrder(t), key);
  }

  /** Every key of `keys` bound to `name`. */
  function Stamp(keys: set<int>, name: string): (m: map<int, string>)
    ensures m.Keys == keys
    ensures forall k :: k in keys ==> m[k] == name
  {
    map k | k in keys :: name
  }

  /** Map helper: stamping a node's key and then both its subtrees stamps the whole tree. */
  lemma StampSplit(m: map<int, string>, k: int, a: set<int>, b: set<int>, name: string)
    ensures m[k := name] + Stamp(a, name) + Stamp(b, name) == m + Stamp(a + b + {k}, name)
  {
  }

  /** Map helper: a binding made on top of a union lands in its right-hand part. */
  lemma UpdateOver(a: map<int, string>, b: map<int, string>, k: int, v: string)
    ensures (a + b)[k := v] == a + b[k := v]
  {
  }

  /** Map helper: nothing on the right leaves a union unchanged. */
  lemma UnionEmpty(m: map<int, string>)
    ensures m + map[] == m
  {
  }

  /** The memtable's key count once execute_action has applied `sub` to a memtable holding `held`. */
  function Counted(count: int, held: map<int, string>, sub: Submission): int
  {
    match sub.action
    case Add => if sub.value == TOMBSTONE then count else count + 1
    case Delete => if sub.key in held then count else count + 1
    case _ => count
  }

  /** What a submission does to the key/value map of the whole store. */
  function Applied(store: map<int, string>, sub: Submission): map<int, string>
  {
    match sub.action
    case Add => if sub.value == TOMBSTONE then store else store[sub.key := sub.value]
    case Delete => store[sub.key := TOMBSTONE]
    case _ => store
  }

  /**
   * add_key_to_index: every key of the subtree at `node`, visited in
   * preorder, is pointed at `filename`.
   */
  method AddKeyToIndex(index: Index, node: MNode?, ghost t: GTree, filename: string)
    requires index.Valid() && index.capacity > 0
    requires Agree(t) && node == Root(t)
    modifies index, index.contents
    ensures index.Valid() && index.capacity == old(index.capacity) && index.contents == old(index.contents)
    ensures index.M == old(index.M) + Stamp(Keys(t), filename)
    decreases t
  {
    if node != null {
      NodesAllocated(t.left);
      NodesAllocated(t.right);
      AgreeNode(t);
      var key, left, right := node.key, node.left, node.right;
      index.Insert(key, filename);
      assert forall n :: n in NodesOf(t.left) ==> unchanged(n);
      AddKeyToIndex(index, left, t.left, filename);
      assert forall n :: n in NodesOf(t.right) ==> unchanged(n);
      AddKeyToIndex(index, right, t.right, filename);
      StampSplit(old(index.M), t.key, Keys(t.left), Keys(t.right), filename);
    }
  }

  // ---------------------------------------------------------------------
  // The store
  // ---------------------------------------------------------------------

  class LsmTree {
    var memtable: Memtable
    var segments: seq<Option<string>>
    var fullSegments: int
    var index: Index
    var disk: Disk
    /** The submissions appended to the write-ahead log, oldest first. */
    ghost var wal: seq<Submission>

    /**
     * The store's invariant: a well-formed memtable whose node count never
     * exceeds its key counter, an index of INDEX_SIZE buckets, and segment
     * slots filled from the front with existing, strictly ascending files.
     */
    ghost predicate Valid()
      reads this, memtable, memtable.Repr, index, index.contents
    {
      && memtable.Valid() && index.Valid() && index.capacity == INDEX_SIZE
      && SlotsOk(segments, fullSegments, disk)
      && Size(memtable.T) <= memtable.countKeys
    }

    /** Between submissions the memtable has room for one more key. */
    predicate Settled()
      reads this, memtable
    {
      memtable.countKeys < MAX_KEYS_IN_TREE
    }

    /** The records of the segment files, oldest first. */
    ghost function Files(): seq<seq<Record>>
      reads this
      requires Filed(segments, fullSegments, disk)
    {
      SlotFiles(segments, fullSegments, disk)
    }

    /** The key/value map the store holds: the memtable over the segments, newer segments over older ones. */
    ghost function Contents(): map<int, string>
      reads this, memtable
      requires Filed(segments, fullSegments, disk)
    {
      Overlay(Files()) + memtable.Contents()
    }

    /** init_lsm_tree: an empty memtable, empty segment slots, an empty index and an empty log. */
    constructor (files: Disk)
      ensures Valid() && Settled() && fresh(memtable) && fresh(index) && fresh(index.contents)
      ensures fullSegments == 0 && Contents() == map[] && index.M == map[] && wal == [] && disk == files
    {
      memtable := new Memtable();
      segments := seq(MAX_SEGMENTS, _ => None);
      fullSegments := 0;
      index := new Index(INDEX_SIZE);
      disk := files;
      wal := [];
      new;
      assert SlotFiles(segments, 0, disk) == [];
    }

    /**
     * handle_submission: the submission is logged first; a failed log write
     * kills the process with nothing applied. The action is then applied; a
     * failed action returns -1. A memtable that has counted MAX_KEYS_IN_TREE
     * keys is then flushed, after a compaction when every slot is taken.
     */
    method HandleSubmission(sub: Submission, walFails: bool, compactName: string, flushName: string)
      returns (outcome: Outcome, found: Option<string>)
      requires Valid() && Settled()
      modifies this, memtable, memtable.Repr, index, index.contents
      ensures Valid() && Settled()
      ensures outcome == Died <==> walFails
      ensures walFails ==> wal == old(wal) && Contents() == old(Contents()) && index.M == old(index.M)
      ensures !walFails ==> wal == old(wal) + [sub]
      ensures outcome == Failed <==> !walFails && (sub.action == Exit || (sub.action == Add && sub.value == TOMBSTONE))
      ensures outcome == Failed ==> Contents() == old(Contents()) && index.M == old(index.M)
      ensures !walFails && flushName !in old(disk) && flushName != compactName ==>
        Contents() == Applied(old(Contents()), sub)
      ensures !walFails && sub.action == Search ==>
        found == if sub.key in old(memtable.Contents()) then Some(old(memtable.Contents())[sub.key])
                 else IndexedSearch(old(index.M), old(disk), sub.key)
      ensures !walFails && Counted(old(memtable.countKeys), old(memtable.Contents()), sub) < MAX_KEYS_IN_TREE ==>
        && memtable.Contents() == Applied(old(memtable.Contents()), sub)
        && memtable.countKeys == Counted(old(memtable.countKeys), old(memtable.Contents()), sub)
        && segments == old(segments) && fullSegments == old(fullSegments) && disk == old(disk) && index.M == old(index.M)
      ensures !walFails && Counted(old(memtable.countKeys), old(memtable.Contents()), sub) == MAX_KEYS_IN_TREE ==>
        && memtable.Contents() == map[] && memtable.countKeys == 0
        && flushName in disk && AsMap(ParseSegment(disk[flushName])) == Applied(old(memtable.Contents()), sub)
        && index.M == old(index.M) + Stamp(Applied(old(memtable.Contents()), sub).Keys, flushName)
        && (old(fullSegments) == MAX_SEGMENTS ==> fullSegments == 2 && segments == [Some(compactName), Some(flushName)])
        && (old(fullSegments) < MAX_SEGMENTS ==>
              fullSegments == old(fullSegments) + 1 && segments == old(segments)[old(fullSegments) := Some(flushName)])
      ensures !walFails && Counted(old(memtable.countKeys), old(memtable.Contents()), sub) == MAX_KEYS_IN_TREE ==>
        && flushName in disk
        && (old(fullSegments) < MAX_SEGMENTS ==> disk == old(disk)[flushName := disk[flushName]])
        && (old(fullSegments) == MAX_SEGMENTS ==>
              disk == (old(disk) - old(SlotNames(segments, fullSegments)))[compactName := Lines(Compacted(old(Files())))][flushName := disk[flushName]])
    {
      found := None;
      if walFails {
        return Died, None;
      }
      wal := wal + [sub];
      assert Contents() == old(Contents()) && Valid();
      var status;
      status, found := ExecuteAction(sub);
      if status != 0 {
        return Failed, found;
      }
      if MemtableIsFull() {
        FlushFull(compactName, flushName);
      }
      return Done, found;
    }

    /** memtable_is_full: the memtable has counted MAX_KEYS_IN_TREE keys. */
    predicate MemtableIsFull()
      reads this, memtable
    {
      memtable.countKeys == MAX_KEYS_IN_TREE
    }

    /**
     * execute_action, which runs only on a logged submission. ADD of the
     * tombstone is refused; any other ADD binds the key and counts it, even
     * when it overwrites. SEARCH looks in the memtable and, on a miss, only
     * where the index points. DELETE writes the tombstone and removes no
     * node. PRINT_MEMTABLE only prints. FLUSH writes the memtable to
     * memtable.txt, which the store never reads; that write is not modelled,
     * so both leave the state alone. Anything else is refused.
     */
    method ExecuteAction(sub: Submission) returns (status: int, found: Option<string>)
      requires Valid() && Settled() && wal != [] && wal[|wal| - 1] == sub
      modifies memtable, memtable.Repr
      ensures Valid() && memtable.countKeys <= MAX_KEYS_IN_TREE && fresh(memtable.Repr - old(memtable.Repr))
      ensures status == 0 || status == -1
      ensures status == -1 <==> sub.action == Exit || (sub.action == Add && sub.value == TOMBSTONE)
      ensures status == -1 ==>
        memtable.Contents() == old(memtable.Contents()) && memtable.countKeys == old(memtable.countKeys)
      ensures sub.action == Add && status == 0 ==>
        memtable.Contents() == old(memtable.Contents())[sub.key := sub.value]
        && memtable.countKeys == old(memtable.countKeys) + 1
      ensures sub.action == Delete ==>
        memtable.Contents() == old(memtable.Contents())[sub.key := TOMBSTONE]
        && memtable.countKeys == old(memtable.countKeys) + (if sub.key in old(memtable.Contents()) then 0 else 1)
      ensures sub.action == Delete && sub.key in old(memtable.Contents()) ==> Size(memtable.T) == old(Size(memtable.T))
      ensures sub.action in {Search, Flush, PrintMemtable} ==>
        memtable.Contents() == old(memtable.Contents()) && memtable.countKeys == old(memtable.countKeys)
      ensures sub.action == Search ==>
        found == if sub.key in old(memtable.Contents()) then Some(old(memtable.Contents())[sub.key])
                 else IndexedSearch(index.M, disk, sub.key)
      ensures memtable.Contents() == Applied(old(memtable.Contents()), sub)
      ensures memtable.countKeys == Counted(old(memtable.countKeys), old(memtable.Contents()), sub)
      ensures Contents() == Applied(old(Contents()), sub)
    {
      found := None;
      status := 0;
      match sub.action {
        case Add =>
          if sub.value == TOMBSTONE {
            status := -1;
          } else {
            AddToMemtable(sub.key, sub.value);
          }
        case Search =>
          found := SearchStore(sub.key);
        case Delete =>
          DeleteInMemtable(sub.key);
        case Flush =>
        case PrintMemtable =>
        case Exit =>
          status := -1;
      }
    }

    /** The ADD branch of execute_action: bind the key and count it. */
    method AddToMemtable(key: int, value: string)
      requires Valid() && Settled()
      modifies memtable, memtable.Repr
      ensures Valid() && memtable.countKeys <= MAX_KEYS_IN_TREE && fresh(memtable.Repr - old(memtable.Repr))
      ensures memtable.Contents() == old(memtable.Contents())[key := value]
      ensures memtable.countKeys == old(memtable.countKeys) + 1
      ensures Contents() == old(Contents())[key := value]
    {
      UpdateOver(Overlay(Files()), memtable.Contents(), key, value);
      memtable.Insert(key, value);
      memtable.countKeys := memtable.countKeys + 1;
    }

    /** The DELETE branch of execute_action: a soft delete, which writes the tombstone. */
    method DeleteInMemtable(key: int)
      requires Valid() && Settled()
      modifies memtable, memtable.Repr
      ensures Valid() && memtable.countKeys <= MAX_KEYS_IN_TREE && fresh(memtable.Repr - old(memtable.Repr))
      ensures memtable.Contents() == old(memtable.Contents())[key := TOMBSTONE]
      ensures memtable.countKeys == old(memtable.countKeys) + (if key in old(memtable.Contents()) then 0 else 1)
      ensures key in old(memtable.Contents()) ==> Size(memtable.T) == old(Size(memtable.T))
      ensures Contents() == old(Contents())[key := TOMBSTONE]
    {
      UpdateOver(Overlay(Files()), memtable.Contents(), key, TOMBSTONE);
      memtable.Delete(key, false);
    }

    /**
     * The SEARCH branch of execute_action: the memtable first, unless it is
     * empty; on a miss, only the file the index names.
     */
    method SearchStore(key: int) returns (found: Option<string>)
      requires Valid()
      ensures found == if key in memtable.Contents() then Some(memtable.Contents()[key])
                       else IndexedSearch(index.M, disk, key)
    {
      var node := if memtable.root == null then null else memtable.Search(key);
      if node == null {
        MapOfKeys(memtable.T);
        found := SearchWithIndex(key);
      } else {
        found := Some(node.data);
      }
    }

    /** ready_for_compaction: every segment slot is taken. */
    predicate ReadyForCompaction()
      reads this
    {
      fullSegments == MAX_SEGMENTS
    }

    /**
     * The flush step of handle_submission: compact when every slot is taken,
     * write the memtable to a new segment, point its keys at that segment in
     * the index, and clear it. The store's map is unchanged when the new
     * segment's name is not taken already.
     */
    method FlushFull(compactName: string, flushName: string)
      requires Valid() && MemtableIsFull()
      modifies this, memtable, memtable.Repr, index, index.contents
      ensures Valid() && memtable.countKeys == 0 && memtable.Contents() == map[] && wal == old(wal)
      ensures old(fullSegments) == MAX_SEGMENTS ==>
        fullSegments == 2 && segments == [Some(compactName), Some(flushName)]
        && disk == (old(disk) - old(SlotNames(segments, fullSegments)))
                   [compactName := Lines(Compacted(old(Files())))][flushName := Lines(InOrder(old(memtable.T)))]
      ensures old(fullSegments) < MAX_SEGMENTS ==>
        fullSegments == old(fullSegments) + 1 && segments == old(segments)[old(fullSegments) := Some(flushName)]
        && disk == old(disk)[flushName := Lines(InOrder(old(memtable.T)))]
      ensures AsMap(ParseSegment(disk[flushName])) == old(memtable.Contents())
      ensures index.M == old(index.M) + Stamp(old(memtable.Contents()).Keys, flushName)
      ensures flushName !in old(disk) && flushName != compactName ==> Contents() == old(Contents())
    {
      ghost var before, held := Overlay(Files()), memtable.Contents();
      if ReadyForCompaction() {
        RunCompaction(compactName);
      }
      assert flushName !in old(disk) && flushName != compactName ==> flushName !in disk;
      assert Overlay(Files()) == before;
      FlushMemtable(flushName);
      if old(fullSegments) == MAX_SEGMENTS {
        assert ResetSlots(compactName)[1 := Some(flushName)] == [Some(compactName), Some(flushName)];
      }
      if flushName !in old(disk) && flushName != compactName {
        UnionEmpty(Overlay(Files()));
      }
    }

    /**
     * Writing the memtable to the next free slot, pointing its keys there in
     * the index and clearing it: what it held moves to the newest segment.
     */
    method FlushMemtable(flushName: string)
      requires Valid() && fullSegments < MAX_SEGMENTS
      modifies this, memtable, memtable.Repr, index, index.contents
      ensures Valid() && memtable.countKeys == 0 && memtable.Contents() == map[]
      ensures wal == old(wal)
      ensures fullSegments == old(fullSegments) + 1 && segments == old(segments)[old(fullSegments) := Some(flushName)]
      ensures disk == old(disk)[flushName := Lines(InOrder(old(memtable.T)))]
      ensures AsMap(ParseSegment(disk[flushName])) == old(memtable.Contents())
      ensures index.M == old(index.M) + Stamp(old(memtable.Contents()).Keys, flushName)
      ensures flushName !in old(disk) ==> Overlay(Files()) == old(Overlay(Files())) + old(memtable.Contents())
      ensures forall k :: k in old(memtable.Contents()) ==>
        IndexedSearch(index.M, disk, k) == Some(old(memtable.Contents())[k])
    {
      ghost var t := memtable.T;
      FlushedSegment(t);
      var filename := SendMemtableToSegment(flushName);
      UpdateIndex(filename);
      memtable.Clear();
      forall k | k in MapOf(t) ensures IndexedSearch(index.M, disk, k) == Some(MapOf(t)[k]) {
        FlushedFound(t, disk, flushName, index.M, k);
      }
    }

    /**
     * run_compaction: the files of all slots are merged into one new file,
     * the inputs are removed, and the slots are reset to hold only the new
     * file. The index is left alone, so entries naming a removed file find
     * nothing afterwards.
     */
    method RunCompaction(newName: string)
      requires SlotsOk(segments, fullSegments, disk) && fullSegments == MAX_SEGMENTS
      modifies this
      ensures SlotsOk(segments, fullSegments, disk)
      ensures memtable == old(memtable) && index == old(index) && wal == old(wal)
      ensures fullSegments == 1 && segments == ResetSlots(newName)
      ensures disk == (old(disk) - old(SlotNames(segments, fullSegments)))[newName := Lines(Compacted(old(Files())))]
      ensures Overlay(Files()) == old(Overlay(Files()))
    {
      var inputs := SlotFiles(segments, fullSegments, disk);
      var merged := Compact(MAX_SEGMENTS, Some(inputs));
      assert inputs[..MAX_SEGMENTS] == inputs;
      SlotsCompacted(segments, disk, newName);
      disk := (disk - SlotNames(segments, fullSegments))[newName := Lines(merged.value)];
      segments := ResetSlots(newName);
      fullSegments := 1;
    }

    /**
     * send_memtable_to_segment: the memtable's lines, in key order, are
     * written to a new file named in the next free slot.
     */
    method SendMemtableToSegment(newName: string) returns (filename: string)
      requires SlotsOk(segments, fullSegments, disk) && fullSegments < MAX_SEGMENTS && memtable.Valid()
      modifies this
      ensures SlotsOk(segments, fullSegments, disk)
      ensures memtable == old(memtable) && index == old(index) && wal == old(wal)
      ensures filename == newName
      ensures disk == old(disk)[newName := Lines(InOrder(memtable.T))]
      ensures segments == old(segments)[old(fullSegments) := Some(newName)]
      ensures fullSegments == old(fullSegments) + 1
      ensures newName !in old(disk) ==> Overlay(Files()) == old(Overlay(Files())) + memtable.Contents()
    {
      var lines := InorderToFile(memtable.root, memtable.T);
      var segments', fullSegments', disk' := segments[fullSegments := Some(newName)], fullSegments + 1, disk[newName := lines];
      SlotsFlushed(segments, fullSegments, disk, newName, memtable.T);
      assert SlotsOk(segments', fullSegments', disk');
      assert newName !in disk ==>
        Overlay(SlotFiles(segments', fullSegments', disk')) == Overlay(Files()) + memtable.Contents();
      disk, segments, fullSegments := disk', segments', fullSegments';
      filename := newName;
    }

    /** update_index: every memtable key is pointed at `filename`. */
    method UpdateIndex(filename: string)
      requires index.Valid() && index.capacity > 0 && memtable.Valid()
      modifies index, index.contents
      ensures index.Valid() && index.capacity == old(index.capacity) && index.contents == old(index.contents)
      ensures index.M == old(index.M) + Stamp(memtable.Contents().Keys, filename)
    {
      MapOfKeys(memtable.T);
      AddKeyToIndex(index, memtable.root, memtable.T, filename);
    }

    /** lsm_tree_search_with_index: the file the index names for `key` is searched; no index entry, no value. */
    method SearchWithIndex(key: int) returns (r: Option<string>)
      requires index.Valid() && index.capacity > 0
      ensures r == IndexedSearch(index.M, disk, key)
    {
      var filename := index.Lookup(key);
      if filename.None? {
        return None;
      }
      r := SearchSegment(disk, filename.value, key);
    }

    /**
     * lsm_tree_linear_search: the segments are searched from the newest to
     * the oldest and the first hit is returned, which is the value the
     * segments denote together.
     */
    method LinearSearch(key: int) returns (r: Option<string>)
      requires SlotsOk(segments, fullSegments, disk)
      ensures r == NewestHit(Files(), key)
      ensures r == if key in Overlay(Files()) then Some(Overlay(Files())[key]) else None
    {
      ghost var files := Files();
      NewestHitOverlay(files, key);
      if fullSegments == 0 {
        return None;
      }
      var i := fullSegments - 1;
      while i >= 0
        invariant -1 <= i < fullSegments
        invariant NewestHit(files[..i + 1], key) == NewestHit(files, key)
      {
        var value := SearchSegment(disk, segments[i].value, key);
        assert files[..i + 1][..i] == files[..i];
        if value.Some? {
          return value;
        }
        i := i - 1;
      }
      return None;
    }
  }
}
