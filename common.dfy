/**
 * Values shared by every part of the store: the optional result, the key/value
 * record that memtables, segments and merges carry, and the compile-time
 * constants of the engine.
 */
module Common {

  datatype Option<T> = None | Some(value: T)

  /** One key/value pair, as held by a memtable node or written as one segment line. */
  datatype Record = Record(key: int, value: string)

  /** The engine's deletion marker (src/lsm_tree.h, TOMBSTONE). */
  const TOMBSTONE: string := "*-*"
  /** The memtable's deletion marker (memtable.h, DEL_MARKER); the same literal. */
  const DEL_MARKER: string := "*-*"
  /** Number of segment slots before compaction is due (src/lsm_tree.h and lsm_tree.h). */
  const MAX_SEGMENTS: int := 2
  /** Number of buckets of the engine's hash index (src/lsm_tree.h). */
  const INDEX_SIZE: int := 91
  /** Memtable key count that triggers a flush (src/memtable.h). */
  const MAX_KEYS_IN_TREE: int := 3

  /** Keys strictly ascend along the sequence: sorted and free of duplicates. */
  predicate StrictlyAscending(rs: seq<Record>)
  {
    forall i, j :: 0 <= i < j < |rs| ==> rs[i].key < rs[j].key
  }

  /** The set of keys a sequence of records carries. */
  function KeySet(rs: seq<Record>): set<int>
  {
    set r | r in rs :: r.key
  }

  /** The key/value map a sequence of records denotes; a later record overrides an earlier one. */
  function AsMap(rs: seq<Record>): map<int, string>
    decreases |rs|
  {
    if rs == [] then map[] else AsMap(rs[..|rs| - 1])[rs[|rs| - 1].key := rs[|rs| - 1].value]
  }

  /** The value of the first record with key `key`, if any (a scan of one segment). */
  function FindFirst(rs: seq<Record>, key: int): Option<string>
    decreases |rs|
  {
    if rs == [] then None
    else if rs[0].key == key then Some(rs[0].value)
    else FindFirst(rs[1..], key)
  }

  lemma {:induction false} AsMapKeys(rs: seq<Record>)
    ensures AsMap(rs).Keys == KeySet(rs)
    decreases |rs|
  {
    if rs != [] {
      var init := rs[..|rs| - 1];
      AsMapKeys(init);
      assert rs == init + [rs[|rs| - 1]];
      assert KeySet(rs) == KeySet(init) + {rs[|rs| - 1].key};
    }
  }

  /** In a key-unique sequence the first match is the value the sequence denotes. */
  lemma {:induction false} FindFirstAsMap(rs: seq<Record>, key: int)
    requires StrictlyAscending(rs)
    ensures FindFirst(rs, key) == if key in AsMap(rs) then Some(AsMap(rs)[key]) else None
    decreases |rs|
  {
    AsMapKeys(rs);
    if rs != [] {
      var tail := rs[1..];
      FindFirstAsMap(tail, key);
      AsMapCons(rs);
      AsMapKeys(tail);
      if rs[0].key == key {
        assert key !in KeySet(tail) by {
          forall r | r in tail ensures r.key != key {
            var i :| 0 <= i < |tail| && tail[i] == r;
            assert rs[i + 1] == r;
          }
        }
      }
    }
  }

  /** Reading a record sequence from the front: the head is overridden by the tail. */
  lemma {:induction false} AsMapCons(rs: seq<Record>)
    requires rs != []
    ensures AsMap(rs) == map[rs[0].key := rs[0].value] + AsMap(rs[1..])
    decreases |rs|
  {
    if |rs| == 1 {
      assert rs[1..] == [];
      assert rs[..0] == [];
    } else {
      var init := rs[..|rs| - 1];
      AsMapCons(init);
      assert init[1..] == rs[1..][..|rs[1..]| - 1];
      assert init[0] == rs[0];
    }
  }

  lemma {:induction false} AsMapAppend(a: seq<Record>, b: seq<Record>)
    ensures AsMap(a + b) == AsMap(a) + AsMap(b)
    decreases |b|
  {
    if b == [] {
      assert a + b == a;
    } else {
      var binit := b[..|b| - 1];
      AsMapAppend(a, binit);
      assert (a + b)[..|a + b| - 1] == a + binit;
    }
  }
}
