/**
 * The engine's index (src/index.c): a fixed number of buckets, each holding a
 * chain of key/segment-name entries, with a count of the buckets that are in
 * use. The bucket array is updated in place; each chain is held as a value
 * (a sequence of records, head first). The ghost map `M` is the key/value
 * map the buckets denote.
 */
module Index {
  import opened Common

  /** C's `%`: the remainder of a division truncated toward zero. */
  function CRem(a: int, m: int): (r: int)
    requires m > 0
    ensures -m < r < m
    ensures a >= 0 ==> r >= 0
    ensures a <= 0 ==> r <= 0
  {
    if a >= 0 then a % m else -((-a) % m)
  }

  /** hash: the division method with the sign of a negative remainder flipped. */
  function Hash(key: int, m: int): (h: int)
    requires m > 0
    ensures 0 <= h < m
    ensures h == (if key < 0 then -key else key) % m
  {
    if key < 0 then -1 * CRem(key, m) else CRem(key, m)
  }

  /** The number of non-empty buckets. */
  function Filled(cs: seq<seq<Record>>): (n: nat)
    ensures n <= |cs|
    decreases |cs|
  {
    if cs == [] then 0 else Filled(cs[..|cs| - 1]) + (if cs[|cs| - 1] != [] then 1 else 0)
  }

  /** No key occurs twice in a chain. */
  predicate UniqueKeys(c: seq<Record>)
  {
    forall i, j :: 0 <= i < j < |c| ==> c[i].key != c[j].key
  }

  /**
   * The result of index_remove as written, for one chain: the key is missing,
   * the code dereferences a null `trail`, or the bucket is set to `chain`.
   */
  datatype RemoveOutcome = Missing | NullDereference | Relinked(chain: seq<Record>)

  class Index {
    var capacity: int
    var positionsFilled: int
    var contents: array<seq<Record>>
    ghost var M: map<int, string>

    ghost predicate Valid()
      reads this, contents
    {
      && contents.Length == capacity
      && positionsFilled == Filled(contents[..])
      && (forall i, j :: 0 <= i < capacity && 0 <= j < |contents[i]| ==> Hash(contents[i][j].key, capacity) == i)
      && (forall i :: 0 <= i < capacity ==> UniqueKeys(contents[i]))
      && (capacity == 0 ==> M == map[])
      && (capacity > 0 ==> forall k :: Denotes(k))
    }

    /** The bucket of `k` yields exactly what `M` says about `k`. */
    ghost predicate Denotes(k: int)
      reads this, contents
      requires capacity > 0 && contents.Length == capacity
    {
      FindFirst(contents[Hash(k, capacity)], k) == if k in M then Some(M[k]) else None
    }

    /** init_index: `size` buckets, all empty, none counted as filled. */
    constructor (size: int)
      requires size >= 0
      ensures Valid() && fresh(contents)
      ensures capacity == size && positionsFilled == 0 && M == map[]
      ensures forall i :: 0 <= i < size ==> contents[i] == []
    {
      var cs := new seq<Record>[size];
      for i := 0 to size
        invariant forall j :: 0 <= j < i ==> cs[j] == []
      {
        cs[i] := [];
      }
      capacity := size;
      positionsFilled := 0;
      contents := cs;
      M := map[];
      new;
      FilledEmpty(contents[..]);
    }

    /**
     * index_insert: a key already in its bucket's chain gets the new value in
     * place; otherwise a new entry goes to the head of the chain, and the
     * bucket is counted as filled if it was empty.
     */
    method Insert(key: int, value: string)
      requires Valid() && capacity > 0
      modifies this, contents
      ensures Valid() && capacity == old(capacity) && contents == old(contents)
      ensures M == old(M)[key := value]
      ensures forall i :: 0 <= i < capacity && i != Hash(key, capacity) ==> contents[i] == old(contents[i])
      ensures key in old(M) ==>
        positionsFilled == old(positionsFilled) && |contents[Hash(key, capacity)]| == old(|contents[Hash(key, capacity)]|)
      ensures key !in old(M) ==>
        contents[Hash(key, capacity)] == [Record(key, value)] + old(contents[Hash(key, capacity)])
        && positionsFilled == old(positionsFilled) + (if old(contents[Hash(key, capacity)]) == [] then 1 else 0)
    {
      var position := Hash(key, capacity);
      var inSlot := contents[position];
      assert Denotes(key);
      var i := 0;
      while i < |inSlot|
        invariant 0 <= i <= |inSlot|
        invariant forall j :: 0 <= j < i ==> inSlot[j].key != key
      {
        if inSlot[i].key == key {
          FindFirstAt(inSlot, i, key);
          Overwrite(position, i, key, value);
          return;
        }
        i := i + 1;
      }
      FindFirstNone(inSlot, key);
      Prepend(position, key, value);
    }

    /** The overwrite branch of index_insert: entry `i` of bucket `position` holds `key`. */
    method Overwrite(position: int, i: int, key: int, value: string)
      requires Valid() && capacity > 0 && position == Hash(key, capacity)
      requires 0 <= i < |contents[position]| && contents[position][i].key == key
      requires forall j :: 0 <= j < i ==> contents[position][j].key != key
      modifies this, contents
      ensures Valid() && capacity == old(capacity) && contents == old(contents)
      ensures M == old(M)[key := value] && positionsFilled == old(positionsFilled)
      ensures contents[position] == old(contents[position])[i := Record(key, value)]
      ensures forall j :: 0 <= j < capacity && j != position ==> contents[j] == old(contents[j])
    {
      ghost var before := contents[..];
      var c := contents[position];
      contents[position] := c[i := Record(key, value)];
      M := M[key := value];
      FilledUpdate(before, position, contents[position]);
      assert contents[..] == before[position := contents[position]];
      forall k
        ensures Denotes(k)
      {
        assert old(Denotes(k));
        if Hash(k, capacity) == position {
          FindFirstOverwrite(c, i, key, value, k);
        }
      }
    }

    /** The prepend branch of index_insert: `key` is in no entry of its bucket. */
    method Prepend(position: int, key: int, value: string)
      requires Valid() && capacity > 0 && position == Hash(key, capacity)
      requires key !in M
      modifies this, contents
      ensures Valid() && capacity == old(capacity) && contents == old(contents)
      ensures M == old(M)[key := value]
      ensures contents[position] == [Record(key, value)] + old(contents[position])
      ensures positionsFilled == old(positionsFilled) + (if old(contents[position]) == [] then 1 else 0)
      ensures forall j :: 0 <= j < capacity && j != position ==> contents[j] == old(contents[j])
    {
      ghost var before := contents[..];
      var inSlot := contents[position];
      assert Denotes(key);
      FindFirstNoneIff(inSlot, key);
      contents[position] := [Record(key, value)] + inSlot;
      if inSlot == [] {
        positionsFilled := positionsFilled + 1;
      }
      M := M[key := value];
      FilledUpdate(before, position, contents[position]);
      assert contents[..] == before[position := contents[position]];
      forall k
        ensures Denotes(k)
      {
        assert old(Denotes(k));
        assert ([Record(key, value)] + inSlot)[1..] == inSlot;
      }
    }

    /** index_lookup: walk the chain of the key's bucket; None stands for NULL. */
    method Lookup(key: int) returns (r: Option<string>)
      requires Valid() && capacity > 0
      ensures r == if key in M then Some(M[key]) else None
    {
      var position := Hash(key, capacity);
      var entries := contents[position];
      assert Denotes(key);
      var i := 0;
      while i < |entries|
        invariant 0 <= i <= |entries|
        invariant FindFirst(entries[i..], key) == FindFirst(entries, key)
      {
        if entries[i].key == key {
          return Some(entries[i].value);
        }
        assert entries[i..][1..] == entries[i + 1..];
        i := i + 1;
      }
      return None;
    }

    /**
     * index_remove with the chain relinked as intended: the entry holding
     * `key` is unlinked, every other entry stays, and a bucket left empty is
     * no longer counted (the source never updates positions_filled here;
     * see RemoveAsWrittenKeepsCount). An absent key gives -1 and changes
     * nothing.
     */
    method Remove(key: int) returns (status: int)
      requires Valid() && capacity > 0
      modifies this, contents
      ensures Valid() && capacity == old(capacity) && contents == old(contents)
      ensures key !in old(M) ==>
        status == -1 && M == old(M) && positionsFilled == old(positionsFilled) && contents[..] == old(contents[..])
      ensures key in old(M) ==>
        status == 0 && M == old(M) - {key}
        && positionsFilled == old(positionsFilled) - (if contents[Hash(key, capacity)] == [] then 1 else 0)
      ensures forall i :: 0 <= i < capacity && i != Hash(key, capacity) ==> contents[i] == old(contents[i])
    {
      var position := Hash(key, capacity);
      var entries := contents[position];
      assert Denotes(key);
      var i := 0;
      while i < |entries|
        invariant 0 <= i <= |entries|
        invariant forall j :: 0 <= j < i ==> entries[j].key != key
      {
        if entries[i].key == key {
          FindFirstAt(entries, i, key);
          Unlink(position, i, key);
          return 0;
        }
        i := i + 1;
      }
      FindFirstNone(entries, key);
      return -1;
    }

    /** The unlinking step of Remove: entry `i` of bucket `position` holds `key`. */
    method Unlink(position: int, i: int, key: int)
      requires Valid() && capacity > 0 && position == Hash(key, capacity)
      requires 0 <= i < |contents[position]| && contents[position][i].key == key && key in M
      modifies this, contents
      ensures Valid() && capacity == old(capacity) && contents == old(contents)
      ensures M == old(M) - {key}
      ensures contents[position] == old(contents[position][..i] + contents[position][i + 1..])
      ensures positionsFilled == old(positionsFilled) - (if contents[position] == [] then 1 else 0)
      ensures forall j :: 0 <= j < capacity && j != position ==> contents[j] == old(contents[j])
    {
      ghost var before := contents[..];
      var c := contents[position];
      var rest := c[..i] + c[i + 1..];
      contents[position] := rest;
      if rest == [] {
        positionsFilled := positionsFilled - 1;
      }
      M := M - {key};
      FilledUpdate(before, position, rest);
      assert contents[..] == before[position := rest];
      assert forall j :: 0 <= j < |rest| ==> rest[j] == c[if j < i then j else j + 1];
      forall k
        ensures Denotes(k)
      {
        assert old(Denotes(k));
        if Hash(k, capacity) == position {
          if k == key {
            FindFirstNone(rest, key);
          } else {
            FindFirstRemove(c, i, k);
          }
        }
      }
    }

    /**
     * index_is_full: every bucket is in use. (The load-factor warning it may
     * print is LoadWarning below.)
     */
    function IsFull(): (r: bool)
      reads this, contents
      requires Valid()
      ensures r <==> forall i :: 0 <= i < capacity ==> contents[i] != []
    {
      FilledFull(contents[..]);
      positionsFilled == capacity
    }
  }

  /**
   * The warning test of index_is_full, reached when not all buckets are
   * filled: the integer quotient `filled / capacity` (both non-negative, so
   * C's and Dafny's division agree) compared with LOAD_FACTOR 0.8.
   */
  predicate LoadWarning(filled: int, capacity: int)
    requires filled >= 0 && capacity > 0
  {
    filled != capacity && (filled / capacity) as real > 0.8
  }

  /** The quotient is 0 below capacity, so the warning never fires on a valid index. */
  lemma LoadWarningNeverFires(filled: int, capacity: int)
    requires 0 <= filled <= capacity && capacity > 0
    ensures !LoadWarning(filled, capacity)
  {
    if filled < capacity {
      assert filled / capacity == 0;
    }
  }

  /**
   * index_remove as written, on the chain of the key's bucket. The walk keeps
   * the previous entry as `trail`; on a match it cuts `trail` off, points it
   * at the match's successor (through a null `trail` when the match is the
   * head) and makes `trail` the head of the bucket, so every entry before
   * `trail` is lost.
   */
  function RemoveAsWritten(c: seq<Record>, key: int): (r: RemoveOutcome)
    ensures r.Missing? <==> FindFirst(c, key).None?
  {
    RemoveWalk(c, key, 0)
  }

  function RemoveWalk(c: seq<Record>, key: int, i: nat): (r: RemoveOutcome)
    requires i <= |c|
    ensures r.Missing? <==> FindFirst(c[i..], key).None?
    decreases |c| - i
  {
    if i == |c| then Missing
    else if c[i].key == key then
      if i == 0 then (if i + 1 < |c| then NullDereference else Relinked([]))
      else Relinked([c[i - 1]] + c[i + 1..])
    else
      assert c[i..][1..] == c[i + 1..];
      RemoveWalk(c, key, i + 1)
  }

  /**
   * Keys 1, 92 and 183 share bucket 1 of the 91 buckets. With the chain
   * 1, 92, 183, removing 183 as written leaves only 92, so key 1 is lost,
   * while the intended unlink keeps both others; removing the head 1
   * dereferences a null pointer.
   */
  lemma RemoveAsWrittenLosesEntries(c: seq<Record>)
    requires c == [Record(1, "a"), Record(92, "b"), Record(183, "c")]
    ensures Hash(1, INDEX_SIZE) == Hash(92, INDEX_SIZE) == Hash(183, INDEX_SIZE) == 1
    ensures RemoveAsWritten(c, 183) == Relinked([Record(92, "b")])
    ensures FindFirst(RemoveAsWritten(c, 183).chain, 1) == None
    ensures FindFirst(c[..2] + c[3..], 1) == Some("a")
    ensures RemoveAsWritten(c, 1) == NullDereference
  {
    assert c[3..] == [];
    assert RemoveWalk(c, 183, 2) == Relinked([Record(92, "b")]);
    assert RemoveWalk(c, 183, 0) == RemoveWalk(c, 183, 1) == RemoveWalk(c, 183, 2);
    assert c[2..] == [Record(183, "c")];
    assert c[1..] == [Record(92, "b"), Record(183, "c")];
    assert c[..2] + c[3..] == [Record(1, "a"), Record(92, "b")];
  }

  /**
   * index_remove never updates positions_filled. Removing the only entry of
   * a bucket empties that bucket as written, so the number of non-empty
   * buckets drops by one while the counter keeps its old value.
   */
  lemma RemoveAsWrittenKeepsCount(cs: seq<seq<Record>>, i: int, key: int, value: string)
    requires 0 <= i < |cs| && cs[i] == [Record(key, value)]
    ensures RemoveAsWritten(cs[i], key) == Relinked([])
    ensures Filled(cs[i := RemoveAsWritten(cs[i], key).chain]) == Filled(cs) - 1
  {
    FilledUpdate(cs, i, []);
  }

  lemma {:induction false} FilledEmpty(cs: seq<seq<Record>>)
    requires forall i :: 0 <= i < |cs| ==> cs[i] == []
    ensures Filled(cs) == 0
    decreases |cs|
  {
    if cs != [] {
      FilledEmpty(cs[..|cs| - 1]);
    }
  }

  /** Replacing one bucket changes the count by that bucket's change of state. */
  lemma {:induction false} FilledUpdate(cs: seq<seq<Record>>, i: int, c: seq<Record>)
    requires 0 <= i < |cs|
    ensures Filled(cs[i := c]) ==
      Filled(cs) - (if cs[i] != [] then 1 else 0) + (if c != [] then 1 else 0)
    decreases |cs|
  {
    var n := |cs| - 1;
    if i < n {
      FilledUpdate(cs[..n], i, c);
      assert cs[i := c][..n] == cs[..n][i := c];
    } else {
      assert cs[i := c][..n] == cs[..n];
    }
  }

  /** All buckets are counted exactly when none is empty. */
  lemma {:induction false} FilledFull(cs: seq<seq<Record>>)
    ensures Filled(cs) == |cs| <==> forall i :: 0 <= i < |cs| ==> cs[i] != []
    decreases |cs|
  {
    if cs != [] {
      var n := |cs| - 1;
      FilledFull(cs[..n]);
      if Filled(cs) == |cs| {
        forall i | 0 <= i < |cs| ensures cs[i] != [] {
          if i < n { assert cs[..n][i] == cs[i]; }
        }
      }
    }
  }

  /** The first entry with `key` sits at `i`. */
  lemma {:induction false} FindFirstAt(c: seq<Record>, i: int, key: int)
    requires 0 <= i < |c| && c[i].key == key
    requires forall j :: 0 <= j < i ==> c[j].key != key
    ensures FindFirst(c, key) == Some(c[i].value)
    decreases i
  {
    if i > 0 {
      FindFirstAt(c[1..], i - 1, key);
    }
  }

  /** No entry has `key`. */
  lemma {:induction false} FindFirstNone(c: seq<Record>, key: int)
    requires forall j :: 0 <= j < |c| ==> c[j].key != key
    ensures FindFirst(c, key) == None
    decreases |c|
  {
    if c != [] {
      FindFirstNone(c[1..], key);
    }
  }

  /** A chain that yields nothing for `key` has no entry with `key`. */
  lemma {:induction false} FindFirstNoneIff(c: seq<Record>, key: int)
    requires FindFirst(c, key) == None
    ensures forall j :: 0 <= j < |c| ==> c[j].key != key
    decreases |c|
  {
    if c != [] {
      FindFirstNoneIff(c[1..], key);
      assert forall j :: 1 <= j < |c| ==> c[j] == c[1..][j - 1];
    }
  }

  /** Overwriting the first entry with `key` changes what the chain yields for `key` only. */
  lemma {:induction false} FindFirstOverwrite(c: seq<Record>, i: int, key: int, value: string, k: int)
    requires 0 <= i < |c| && c[i].key == key
    requires forall j :: 0 <= j < i ==> c[j].key != key
    ensures FindFirst(c[i := Record(key, value)], k) == if k == key then Some(value) else FindFirst(c, k)
    decreases i
  {
    if i > 0 {
      FindFirstOverwrite(c[1..], i - 1, key, value, k);
      assert c[i := Record(key, value)][1..] == c[1..][i - 1 := Record(key, value)];
    }
  }

  /** Unlinking an entry with another key leaves what the chain yields for `k`. */
  lemma {:induction false} FindFirstRemove(c: seq<Record>, i: int, k: int)
    requires 0 <= i < |c| && c[i].key != k
    ensures FindFirst(c[..i] + c[i + 1..], k) == FindFirst(c, k)
    decreases i
  {
    if i == 0 {
      assert c[..i] + c[i + 1..] == c[1..];
    } else {
      FindFirstRemove(c[1..], i - 1, k);
      assert (c[..i] + c[i + 1..])[1..] == c[1..][..i - 1] + c[1..][i..];
    }
  }
}
