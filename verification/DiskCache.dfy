/**
 * The disk cache's bookkeeping: lock states, open streams and sizes. The file system is a map
 * from streams to file sizes; whether a file opens or can be deleted is up to the environment.
 */
module DiskCache {
  import opened Util

  datatype LockState = LS_UNLOCKED | LS_LOCKED | LS_UNLOCKING

  datatype Entry = Entry(lockState: LockState, accessors: nat, size: nat, streams: nat, lastModified: int)

  /** A stream of a resource, which is one file. */
  datatype Key = Key(id: string, index: nat)

  // ---- Sums over maps ----------------------------------------------------

  ghost function SumOf<K>(m: map<K, nat>): nat
    decreases |m|
  {
    if m == map[] then 0
    else
      var k :| k in m;
      m[k] + SumOf(m - {k})
  }

  function Get<K>(m: map<K, nat>, k: K): nat { if k in m then m[k] else 0 }

  lemma {:induction false} SumRemove<K>(m: map<K, nat>, k: K)
    requires k in m
    ensures SumOf(m) == m[k] + SumOf(m - {k})
    decreases |m|
  {
    var j :| j in m && SumOf(m) == m[j] + SumOf(m - {j});
    if j != k {
      SumRemove(m - {j}, k);
      SumRemove(m - {k}, j);
      assert m - {j} - {k} == m - {k} - {j};
    }
  }

  lemma SumSet<K>(m: map<K, nat>, k: K, v: nat)
    ensures SumOf(m[k := v]) == SumOf(m) - Get(m, k) + v
    ensures Get(m, k) <= SumOf(m)
  {
    SumRemove(m[k := v], k);
    assert m[k := v] - {k} == m - {k};
    if k in m { SumRemove(m, k); } else { assert m - {k} == m; }
  }

  ghost function Sizes(m: map<string, Entry>): map<string, nat> { map id | id in m :: m[id].size }

  ghost function Accessors(m: map<string, Entry>): map<string, nat> { map id | id in m :: m[id].accessors }

  /** The part of a stream map that belongs to one resource. */
  ghost function Of(m: map<Key, nat>, id: string): map<Key, nat> { map k | k in m && k.id == id :: m[k] }

  lemma OfSet(m: map<Key, nat>, k: Key, v: nat, id: string)
    ensures Of(m[k := v], id) == if k.id == id then Of(m, id)[k := v] else Of(m, id)
  {
  }

  /** The files that nobody is writing. */
  ghost function Closed(files: map<Key, nat>, writing: map<Key, nat>): map<Key, nat> {
    map k | k in files && Get(writing, k) == 0 :: files[k]
  }

  ghost function Writers(writing: map<Key, nat>, id: string): nat { SumOf(Of(writing, id)) }

  /** An entry against the streams open on it. */
  ghost predicate EntrySound(e: Entry, readers: nat, writers: nat) {
    && e.accessors == readers + writers
    && (e.lockState == LS_UNLOCKED ==> writers == 0)
    && (e.lockState != LS_UNLOCKED ==> readers == 0)
    && (e.lockState == LS_UNLOCKING ==> e.accessors > 0)
  }

  /** Every entry is sound, and a resource with open streams has an entry. */
  ghost predicate Sound(m: map<string, Entry>, readers: map<string, nat>, writing: map<Key, nat>) {
    && (forall id :: id in m ==> EntrySound(m[id], Get(readers, id), Writers(writing, id)))
    && (forall id :: id !in m ==> Get(readers, id) == 0 && Writers(writing, id) == 0)
  }

  /** Everything in use, and the kept entry, is still there; nothing has changed but by removal. */
  ghost predicate Kept(before: map<string, Entry>, after: map<string, Entry>, keep: Option<string>) {
    && (forall id :: id in after ==> id in before && after[id] == before[id])
    && (forall id :: id in before ==>
          before[id].lockState != LS_UNLOCKED || before[id].accessors > 0 || Some(id) == keep ==> id in after)
  }

  /** The files that are left after deleting the first streams of a resource. */
  function Without(files: map<Key, nat>, id: string, streams: nat, stuck: set<Key>): map<Key, nat> {
    map k | k in files && !(k.id == id && k.index < streams && k !in stuck) :: files[k]
  }

  lemma OtherFilesSame(files: map<Key, nat>, writing: map<Key, nat>, id: string, streams: nat, j: string)
    requires j != id
    ensures Of(Closed(Without(files, id, streams, {}), writing), j) == Of(Closed(files, writing), j)
  {
  }

  ghost function ClosedSize(files: map<Key, nat>, writing: map<Key, nat>, id: string): nat {
    SumOf(Of(Closed(files, writing), id))
  }

  ghost predicate ExactFor(m: map<string, Entry>, files: map<Key, nat>, writing: map<Key, nat>) {
    && (forall id :: id in m ==> m[id].size == ClosedSize(files, writing, id))
    && (forall k :: k in files ==> k.id in m && k.index < m[k.id].streams)
    && (forall k :: k in writing ==> writing[k] <= 1)
  }

  lemma ExactErase(m: map<string, Entry>, files: map<Key, nat>, writing: map<Key, nat>, id: string)
    requires ExactFor(m, files, writing) && id in m
    ensures ExactFor(m - {id}, Without(files, id, m[id].streams, {}), writing)
  {
    hide SumOf, Of, Closed;
    var left := Without(files, id, m[id].streams, {});
    forall j | j in m && j != id ensures ClosedSize(left, writing, j) == ClosedSize(files, writing, j) {
      OtherFilesSame(files, writing, id, m[id].streams, j);
    }
  }

  lemma SoundSame(m: map<string, Entry>, id: string, readers: map<string, nat>, writing: map<Key, nat>)
    requires Sound(m, readers, writing) && id in m
    ensures EntrySound(m[id], Get(readers, id), Writers(writing, id))
  {
  }

  lemma WritersSet(writing: map<Key, nat>, k: Key, n: nat)
    ensures Get(writing, k) <= Writers(writing, k.id)
    ensures Writers(writing[k := n], k.id) == Writers(writing, k.id) - Get(writing, k) + n
    ensures forall id :: id != k.id ==> Writers(writing[k := n], id) == Writers(writing, id)
  {
    OfSet(writing, k, n, k.id);
    SumSet(Of(writing, k.id), k, n);
    forall id | id != k.id ensures Writers(writing[k := n], id) == Writers(writing, id) { OfSet(writing, k, n, id); }
  }

  /** The branch for a missing entry is never taken. */
  lemma HasEntry(m: map<string, Entry>, k: Key, readers: map<string, nat>, writing: map<Key, nat>)
    requires Sound(m, readers, writing) && Get(writing, k) > 0
    ensures k.id in m && m[k.id].accessors > 0
  {
    WritersSet(writing, k, 0);
    if k.id in m { SoundSame(m, k.id, readers, writing); }
  }

  lemma HasEntryToRead(m: map<string, Entry>, id: string, readers: map<string, nat>, writing: map<Key, nat>)
    requires Sound(m, readers, writing) && Get(readers, id) > 0
    ensures id in m && m[id].accessors > 0
  {
    hide SumOf, Of;
    if id in m { SoundSame(m, id, readers, writing); }
  }

  lemma OneWriter(m: map<string, Entry>, files: map<Key, nat>, writing: map<Key, nat>, k: Key)
    requires ExactFor(m, files, writing) && Get(writing, k) > 0
    ensures Get(writing, k) == 1
  {
  }

  lemma NoAccessorsNoStreams(m: map<string, Entry>, readers: map<string, nat>, writing: map<Key, nat>)
    requires Sound(m, readers, writing) && SumOf(Accessors(m)) == 0
    ensures Sound(map[], readers, writing)
    ensures SumOf(Sizes(map[])) == 0 && SumOf(Accessors(map[])) == 0
  {
    forall id ensures Get(readers, id) == 0 && Writers(writing, id) == 0 {
      if id in m {
        SumSet(Accessors(m), id, 0);
        assert EntrySound(m[id], Get(readers, id), Writers(writing, id));
      }
    }
    assert Sizes(map[]) == map[] && Accessors(map[]) == map[];
  }

  /** An entry after a stream of it has been opened for writing over a file of the given size. */
  function Opened(e: Entry, index: nat, fileSize: nat): Entry {
    e.(streams := if e.streams > index then e.streams else index + 1,
       size := e.size - Min(fileSize, e.size), accessors := e.accessors + 1)
  }

  /** An entry after a writer has closed a file of the given size. */
  function Released(e: Entry, fileSize: nat, now: int): Entry
    requires e.accessors > 0
  {
    var r := e.(accessors := e.accessors - 1, size := e.size + fileSize);
    if e.lockState == LS_UNLOCKING && e.accessors == 1 then r.(lockState := LS_UNLOCKED, lastModified := now) else r
  }

  function NewEntry(now: int): Entry { Entry(LS_UNLOCKED, 0, 0, 0, now) }

  lemma NotCounted(m: map<string, Entry>, id: string)
    requires id !in m
    ensures Get(Sizes(m), id) == 0 && Get(Accessors(m), id) == 0
  {
  }

  lemma Counted(m: map<string, Entry>, id: string)
    requires id in m
    ensures Get(Sizes(m), id) == m[id].size && Get(Accessors(m), id) == m[id].accessors
  {
  }

  lemma KeptEntry(before: map<string, Entry>, after: map<string, Entry>, id: string)
    requires Kept(before, after, Some(id)) && id in before
    ensures id in after && after[id] == before[id]
  {
  }

  lemma KeptLocked(before: map<string, Entry>, m: map<string, Entry>, id: string, old_entry: Entry, locked: Entry)
    requires Kept(before[id := old_entry], m, Some(id))
    ensures Kept(before[id := locked], m[id := locked], Some(id))
  {
  }

  /** A change that leaves size and streams alone. */
  lemma ExactSet(m: map<string, Entry>, id: string, e: Entry, files: map<Key, nat>, writing: map<Key, nat>)
    requires id in m && e.size == m[id].size && e.streams == m[id].streams
    ensures ExactFor(m, files, writing) ==> ExactFor(m[id := e], files, writing)
  {
    hide SumOf, Of, Closed;
  }

  lemma ExactNew(m: map<string, Entry>, id: string, e: Entry, files: map<Key, nat>, writing: map<Key, nat>)
    requires ExactFor(m, files, writing) && id !in m && e.size == 0
    ensures ExactFor(m[id := e], files, writing)
  {
    assert Of(Closed(files, writing), id) == map[];
  }

  lemma OfWithout(m: map<Key, nat>, k: Key, id: string)
    ensures Of(m - {k}, id) == if id == k.id then Of(m, id) - {k} else Of(m, id)
  {
  }

  lemma OpenSizes(files: map<Key, nat>, k: Key, writing: map<Key, nat>, id: string)
    requires Get(writing, k) == 0
    ensures Get(files, k) <= ClosedSize(files, writing, k.id)
    ensures ClosedSize(files[k := 0], writing[k := 1], id)
      == ClosedSize(files, writing, id) - (if id == k.id then Get(files, k) else 0)
  {
    var closed := Closed(files, writing);
    assert Closed(files[k := 0], writing[k := 1]) == closed - {k};
    OfWithout(closed, k, id);
    if k in files {
      assert k in Of(closed, k.id);
      SumRemove(Of(closed, k.id), k);
    } else {
      assert Of(closed, k.id) - {k} == Of(closed, k.id);
    }
  }

  /** Opening a stream for writing empties its file and takes it out of the count. */
  lemma ExactOpen(m: map<string, Entry>, k: Key, e: Entry, files: map<Key, nat>, writing: map<Key, nat>)
    requires ExactFor(m, files, writing) && k.id in m && Get(writing, k) == 0
    ensures Get(files, k) <= m[k.id].size
    ensures e.size == m[k.id].size - Get(files, k) && e.streams >= m[k.id].streams && e.streams > k.index ==>
      ExactFor(m[k.id := e], files[k := 0], writing[k := 1])
  {
    hide ClosedSize;
    OpenSizes(files, k, writing, k.id);
    forall id ensures id != k.id ==> ClosedSize(files[k := 0], writing[k := 1], id) == ClosedSize(files, writing, id) {
      OpenSizes(files, k, writing, id);
    }
  }

  lemma CloseSizes(files: map<Key, nat>, k: Key, writing: map<Key, nat>, id: string)
    requires Get(writing, k) == 1
    ensures ClosedSize(files, writing[k := 0], id)
      == ClosedSize(files, writing, id) + (if id == k.id then Get(files, k) else 0)
  {
    var closed := Closed(files, writing);
    if k in files {
      assert Closed(files, writing[k := 0]) == closed[k := files[k]];
      OfSet(closed, k, files[k], id);
      SumSet(Of(closed, k.id), k, files[k]);
    } else {
      assert Closed(files, writing[k := 0]) == closed;
    }
  }

  /** Closing it counts the file's size. */
  lemma ExactClose(m: map<string, Entry>, k: Key, e: Entry, files: map<Key, nat>, writing: map<Key, nat>)
    requires ExactFor(m, files, writing) && k.id in m && Get(writing, k) == 1
    requires e.size == m[k.id].size + Get(files, k) && e.streams == m[k.id].streams
    ensures ExactFor(m[k.id := e], files, writing[k := 0])
  {
    hide ClosedSize;
    CloseSizes(files, k, writing, k.id);
    forall id ensures id != k.id ==> ClosedSize(files, writing[k := 0], id) == ClosedSize(files, writing, id) {
      CloseSizes(files, k, writing, id);
    }
  }

  predicate Free(e: Entry) { e.lockState == LS_UNLOCKED && e.accessors == 0 }

  predicate FirstFree(m: map<string, Entry>, order: seq<string>, i: nat)
    requires forall id :: id in order ==> id in m
  {
    i < |order| && Free(m[order[i]]) && forall k :: 0 <= k < i ==> !Free(m[order[k]])
  }

  /** When the entry at k is looked at, the first free one being at i: its neighbour comes first of all. */
  function Rank(i: nat, k: nat): int { if k == i + 1 then 0 else if k == i then 1 else k - i }

  /** Of the entries from i on, the one at j is the oldest, and the first of those. */
  predicate OldestFrom(m: map<string, Entry>, order: seq<string>, i: nat, j: nat)
    requires forall id :: id in order ==> id in m
  {
    && i <= j < |order|
    && forall k :: i <= k < |order| ==>
         && m[order[j]].lastModified <= m[order[k]].lastModified
         && (Rank(i, k) < Rank(i, j) ==> m[order[j]].lastModified < m[order[k]].lastModified)
  }

  /** What CheckLimit picks: the oldest of the entries from the first free one on. */
  ghost predicate Picked(m: map<string, Entry>, order: seq<string>, victim: Option<string>)
    requires forall id :: id in order ==> id in m
  {
    match victim
    case None => forall id :: id in order ==> !Free(m[id])
    case Some(v) => exists i: nat, j: nat :: FirstFree(m, order, i) && OldestFrom(m, order, i, j) && order[j] == v
  }

  lemma OneRank(i: nat, j: nat, k: nat)
    requires i <= j && i <= k
    ensures Rank(i, j) == Rank(i, k) ==> j == k
  {
  }

  /** It is one entry at most. */
  lemma PickedOnce(m: map<string, Entry>, order: seq<string>, v: Option<string>, w: Option<string>)
    requires forall id :: id in order ==> id in m
    requires Picked(m, order, v) && Picked(m, order, w)
    ensures v == w
  {
    if v.Some? && w.Some? {
      var i: nat, j: nat :| FirstFree(m, order, i) && OldestFrom(m, order, i, j) && order[j] == v.value;
      var i2: nat, j2: nat :| FirstFree(m, order, i2) && OldestFrom(m, order, i2, j2) && order[j2] == w.value;
      assert i == i2;
      OneRank(i, j, j2);
    }
  }

  /** No entry is free, or there is one not older than one that is locked or in use. */
  ghost predicate GivesUp(m: map<string, Entry>, keep: Option<string>) {
    || (forall id :: id in m && Some(id) != keep ==> !Free(m[id]))
    || (exists free, busy :: free in m && busy in m && Free(m[free]) && !Free(m[busy])
          && Some(free) != keep && Some(busy) != keep && m[busy].lastModified <= m[free].lastModified)
  }

  /** It picks an entry that can be deleted, or gives up. */
  lemma PickedOrNot(m: map<string, Entry>, order: seq<string>, keep: Option<string>, victim: Option<string>)
    requires forall id :: id in order <==> id in m && Some(id) != keep
    requires Picked(m, order, victim)
    ensures victim.Some? ==> victim.value in m && Some(victim.value) != keep
    ensures victim == None || !Free(m[victim.value]) ==> GivesUp(m, keep)
  {
    if victim.Some? {
      var i: nat, j: nat :| FirstFree(m, order, i) && OldestFrom(m, order, i, j) && order[j] == victim.value;
      assert order[i] in order && order[j] in order;
      if !Free(m[victim.value]) { assert m[victim.value].lastModified <= m[order[i]].lastModified; }
    }
  }

  /** An old locked entry behind a free one: it is picked, so nothing is evicted. */
  lemma LockedOldEntryIsPicked(size: nat, victim: Option<string>)
    requires var m := map["a" := Entry(LS_UNLOCKED, 0, size, 1, 2), "b" := Entry(LS_LOCKED, 0, size, 1, 1)];
      Picked(m, ["a", "b"], victim)
    ensures victim == Some("b")
  {
    var m := map["a" := Entry(LS_UNLOCKED, 0, size, 1, 2), "b" := Entry(LS_LOCKED, 0, size, 1, 1)];
    var order := ["a", "b"];
    assert order[0] == "a" && order[1] == "b" && Free(m["a"]);
    assert FirstFree(m, order, 0) && OldestFrom(m, order, 0, 1);
    PickedOnce(m, order, victim, Some("b"));
  }

  lemma KeptAtFirst(m: map<string, Entry>, keep: Option<string>)
    ensures Kept(m, m, keep)
  {
  }

  lemma KeptAfterErase(before: map<string, Entry>, m: map<string, Entry>, keep: Option<string>, id: string)
    requires Kept(before, m, keep) && id in m && Some(id) != keep
    ensures m[id].lockState == LS_UNLOCKED && m[id].accessors == 0 ==> Kept(before, m - {id}, keep)
  {
  }

  lemma Smaller<K, V>(m: map<K, V>, k: K)
    requires k in m
    ensures |m - {k}| < |m|
  {
    assert (m - {k}).Keys == m.Keys - {k};
    assert |m.Keys - {k}| == |m.Keys| - 1;
  }

  function Only(files: map<Key, nat>, stuck: set<Key>): map<Key, nat> { map k | k in files && k in stuck :: files[k] }

  lemma EraseKeepsSums(m: map<string, Entry>, id: string)
    requires id in m
    ensures SumOf(Sizes(m)) == m[id].size + SumOf(Sizes(m - {id}))
    ensures SumOf(Accessors(m)) == m[id].accessors + SumOf(Accessors(m - {id}))
  {
    SumRemove(Sizes(m), id);
    SumRemove(Accessors(m), id);
    assert Sizes(m) - {id} == Sizes(m - {id});
    assert Accessors(m) - {id} == Accessors(m - {id});
  }

  lemma SoundErase(m: map<string, Entry>, id: string, readers: map<string, nat>, writing: map<Key, nat>)
    requires Sound(m, readers, writing) && id in m && m[id].lockState == LS_UNLOCKED && m[id].accessors == 0
    ensures Sound(m - {id}, readers, writing)
  {
    hide SumOf, Of;
    assert EntrySound(m[id], Get(readers, id), Writers(writing, id));
  }

  lemma SoundSet(m: map<string, Entry>, id: string, e: Entry, readers: map<string, nat>, writing: map<Key, nat>)
    requires Sound(m, readers, writing) && EntrySound(e, Get(readers, id), Writers(writing, id))
    ensures Sound(m[id := e], readers, writing)
  {
    hide SumOf, Of;
  }

  /** A reader comes or goes: n readers of id from now on. */
  lemma SoundReaders(m: map<string, Entry>, id: string, e: Entry, readers: map<string, nat>, n: nat,
    writing: map<Key, nat>)
    requires Sound(m, readers, writing) && id in m && EntrySound(e, n, Writers(writing, id))
    ensures Sound(m[id := e], readers[id := n], writing)
  {
    hide SumOf, Of;
  }

  /** A writer comes or goes: n writers of stream k from now on. */
  lemma SoundWriters(m: map<string, Entry>, k: Key, e: Entry, readers: map<string, nat>, writing: map<Key, nat>, n: nat)
    requires Sound(m, readers, writing) && k.id in m
    requires Get(writing, k) <= Writers(writing, k.id)
    requires EntrySound(e, Get(readers, k.id), Writers(writing, k.id) - Get(writing, k) + n)
    ensures Sound(m[k.id := e], readers, writing[k := n])
  {
    WritersSet(writing, k, n);
  }

  lemma SetKeepsSums(m: map<string, Entry>, id: string, e: Entry)
    ensures var old_size, old_accessors := Get(Sizes(m), id), Get(Accessors(m), id);
      && SumOf(Sizes(m[id := e])) == SumOf(Sizes(m)) - old_size + e.size && old_size <= SumOf(Sizes(m))
      && SumOf(Accessors(m[id := e])) == SumOf(Accessors(m)) - old_accessors + e.accessors
      && old_accessors <= SumOf(Accessors(m))
  {
    SumSet(Sizes(m), id, e.size);
    SumSet(Accessors(m), id, e.accessors);
    assert Sizes(m[id := e]) == Sizes(m)[id := e.size];
    assert Accessors(m[id := e]) == Accessors(m)[id := e.accessors];
  }

  // ---- Events ------------------------------------------------------------

  datatype Operation =
    | Lock(id: string) | Write(id: string, index: nat) | Fill(key: Key, size: nat) | Unlock(id: string)
    | Read(id: string, index: nat) | CloseReader(id: string) | CloseWriter(id: string, index: nat) | Delete(id: string)

  /** One call of the owner or of an open stream, and what the environment answers. */
  datatype Event = Event(op: Operation, now: int, opens: bool, stuck: set<Key>)

  // ---- The cache ---------------------------------------------------------

  class DiskCache {
    var max_cache_: nat
    var total_size_: nat
    var total_accessors_: nat
    var map_: map<string, Entry>
    // Environment: the files, and the streams that are open.
    var files_: map<Key, nat>
    var readers_: map<string, nat>
    var writing_: map<Key, nat>
    // History: the events of a run.
    ghost var history_: seq<Event>

    ghost predicate Valid()
      reads `total_size_, `total_accessors_, `map_, `readers_, `writing_
    {
      && total_size_ == SumOf(Sizes(map_))
      && total_accessors_ == SumOf(Accessors(map_))
      && Sound(map_, readers_, writing_)
    }

    /** Each entry's size is that of its files that nobody is writing, and no file is written twice at once. */
    ghost predicate Exact()
      reads `map_, `files_, `writing_
    {
      ExactFor(map_, files_, writing_)
    }

    constructor (size: nat)
      ensures Valid() && Exact() && max_cache_ == size && map_ == map[] && files_ == map[]
      ensures total_size_ == 0 && readers_ == map[] && writing_ == map[] && history_ == []
    {
      max_cache_, total_size_, total_accessors_ := size, 0, 0;
      map_, files_ := map[], map[];
      readers_, writing_, history_ := map[], map[], [];
      new;
      assert forall id :: Of(writing_, id) == map[];
    }

    /** Deletes a resource's files, except those that cannot be deleted. */
    method DeleteFiles(id: string, streams: nat, stuck: set<Key>) returns (success: bool)
      modifies `files_
      ensures files_ == Without(old(files_), id, streams, stuck)
      ensures success <==> forall i :: 0 <= i < streams && Key(id, i) in old(files_) ==> Key(id, i) !in stuck
    {
      success := true;
      assert files_ == Without(files_, id, 0, stuck);
      for index := 0 to streams
        invariant files_ == Without(old(files_), id, index, stuck)
        invariant success <==> forall i :: 0 <= i < index && Key(id, i) in old(files_) ==> Key(id, i) !in stuck
      {
        var k := Key(id, index);
        if k in files_ {
          if k in stuck { success := false; } else { files_ := files_ - {k}; }
        }
      }
    }

    /** Removes a resource that is neither locked nor in use. */
    method DeleteResource(id: string, stuck: set<Key>) returns (success: bool)
      requires Valid()
      modifies `map_, `files_, `total_size_
      ensures Valid()
      // It goes when nobody has locked it or uses it, and only then.
      ensures map_ == if id in old(map_) && old(map_[id]).lockState == LS_UNLOCKED && old(map_[id]).accessors == 0
        then old(map_) - {id} else old(map_)
      ensures success ==> id !in map_
      ensures stuck == {} ==> (success <==> id !in map_)
      ensures files_ == if map_ == old(map_) then old(files_)
        else Without(old(files_), id, old(map_)[id].streams, stuck)
      ensures old(Exact()) && stuck == {} ==> Exact()
    {
      hide SumOf, Sizes, Accessors, Sound, ExactFor, Without;
      if id !in map_ { return true; }
      if Exact() { ExactErase(map_, files_, writing_, id); }
      var entry := map_[id];
      if entry.lockState != LS_UNLOCKED || entry.accessors > 0 { return false; }
      success := DeleteFiles(id, entry.streams, stuck);
      EraseKeepsSums(map_, id);
      SoundErase(map_, id, readers_, writing_);
      total_size_ := total_size_ - entry.size;
      map_ := map_ - {id};
    }

    /** The keys of the map in the order in which it is gone through, whichever that is. */
    method ListKeys(keep: Option<string>) returns (order: seq<string>)
      ensures forall id :: id in order <==> id in map_ && Some(id) != keep
    {
      order := [];
      var left := set id | id in map_ && Some(id) != keep;
      while left != {}
        invariant forall id :: id in order || id in left <==> id in map_ && Some(id) != keep
        decreases |left|
      {
        var id :| id in left;
        order, left := order + [id], left - {id};
      }
    }

    /** The loops of CheckLimit: the first free entry, and from there on the oldest one, free or not. */
    method PickVictim(order: seq<string>) returns (victim: Option<string>)
      requires forall id :: id in order ==> id in map_
      ensures Picked(map_, order, victim)
    {
      var first := 0;
      while first < |order| && (map_[order[first]].lockState != LS_UNLOCKED || map_[order[first]].accessors > 0)
        invariant first <= |order| && forall k :: 0 <= k < first ==> !Free(map_[order[k]])
      {
        first := first + 1;
      }
      if first == |order| { return None; }
      var oldest := if first + 1 < |order| then first + 1 else first;
      for it := first to |order|
        invariant first <= oldest < |order| && (oldest < it || oldest == first + 1 || oldest == first == |order| - 1)
        invariant forall k :: first <= k < |order| && (k < it || k == first + 1) ==>
          && map_[order[oldest]].lastModified <= map_[order[k]].lastModified
          && (Rank(first, k) < Rank(first, oldest) ==>
                map_[order[oldest]].lastModified < map_[order[k]].lastModified)
      {
        if map_[order[it]].lastModified < map_[order[oldest]].lastModified { oldest := it; }
      }
      assert FirstFree(map_, order, first) && OldestFrom(map_, order, first, oldest);
      return Some(order[oldest]);
    }

    /** One round of CheckLimit: what is picked goes exactly if it is free. */
    method EvictOne(keep: Option<string>, stuck: set<Key>)
      returns (evicted: bool, ghost order: seq<string>, ghost victim: Option<string>)
      requires Valid()
      modifies `map_, `files_, `total_size_
      ensures Valid() && (forall id :: id in order <==> id in old(map_) && Some(id) != keep)
      ensures Picked(old(map_), order, victim) && (victim.Some? ==> victim.value in old(map_))
      ensures var free := victim.Some? && Free(old(map_)[victim.value]);
        && map_ == (if free then old(map_) - {victim.value} else old(map_))
        && (evicted ==> free) && (stuck == {} ==> (evicted <==> free))
      ensures old(Exact()) && stuck == {} ==> Exact()
    {
      hide Sound, SumOf, Sizes, Accessors, ExactFor, Without, Picked;
      var keys := ListKeys(keep);
      var picked := PickVictim(keys);
      order, victim := keys, picked;
      PickedOrNot(map_, order, keep, victim);
      if picked == None { return false, keys, picked; }
      evicted := DeleteResource(picked.value, stuck);
    }

    /**
     * Evicts until the cache is within its limit, or until what it picks cannot be deleted. An
     * entry that is locked or in use is never removed.
     */
    method CheckLimit(keep: Option<string>, stuck: set<Key>) returns (success: bool)
      requires Valid()
      modifies `map_, `files_, `total_size_
      ensures Valid() && Kept(old(map_), map_, keep)
      ensures success ==> total_size_ <= max_cache_
      ensures stuck == {} ==> (success <==> total_size_ <= max_cache_)
      ensures stuck == {} && !success ==> GivesUp(map_, keep)
      ensures old(total_size_ <= max_cache_) ==> map_ == old(map_) && files_ == old(files_)
      ensures old(Exact()) && stuck == {} ==> Exact()
    {
      hide Sound, SumOf, Sizes, Accessors, Kept, ExactFor, Without, Picked, GivesUp;
      KeptAtFirst(map_, keep);
      while total_size_ > max_cache_
        invariant Valid() && Kept(old(map_), map_, keep)
        invariant old(Exact()) && stuck == {} ==> Exact()
        invariant old(total_size_ <= max_cache_) ==> map_ == old(map_) && files_ == old(files_)
        decreases |map_|
      {
        ghost var before := map_;
        var evicted, order, victim := EvictOne(keep, stuck);
        PickedOrNot(before, order, keep, victim);
        if victim.Some? { KeptAfterErase(old(map_), before, keep, victim.value); }
        if !evicted { return false; }
        Smaller(before, victim.value);
      }
      return true;
    }

    /** Locks a resource for writing, making its entry if need be. */
    method LockResource(id: string, now: int, stuck: set<Key>) returns (ok: bool)
      requires Valid()
      modifies `map_, `files_, `total_size_
      ensures Valid()
      ensures ok ==> id in map_ && map_[id].lockState == LS_LOCKED && total_size_ <= max_cache_
      ensures ok ==>
        map_[id] == (if id in old(map_) then old(map_[id]).(lockState := LS_LOCKED) else Entry(LS_LOCKED, 0, 0, 0, now))
      // Refused while locked, or while unlocked with readers; otherwise only for want of space.
      ensures var busy := id in old(map_) && (old(map_[id]).lockState == LS_LOCKED
        || (old(map_[id]).lockState == LS_UNLOCKED && old(map_[id]).accessors > 0));
        && (busy ==> !ok && map_ == old(map_))
        && (!busy && stuck == {} ==> (ok <==> total_size_ <= max_cache_))
        && (!busy && old(total_size_ <= max_cache_) ==> ok)
        && (!busy && stuck == {} && !ok ==> GivesUp(map_, Some(id)))
      ensures old(total_size_ <= max_cache_) ==> files_ == old(files_)
      ensures Kept(old(map_)[id := if id in map_ then map_[id] else Entry(LS_UNLOCKED, 0, 0, 0, now)], map_, Some(id))
      ensures old(Exact()) && stuck == {} ==> Exact()
    {
      hide SumOf, Sizes, Accessors, Sound, ExactFor, Kept;
      ghost var before := map_;
      if id !in map_ {
        MakeEntry(id, now);
      }
      var entry := map_[id];
      KeptAtFirst(map_, Some(id));
      assert map_ == before[id := entry];
      if entry.lockState == LS_LOCKED { return false; }
      if entry.lockState == LS_UNLOCKED && entry.accessors > 0 { return false; }
      if total_size_ > max_cache_ {
        var roomy := CheckLimit(Some(id), stuck);
        KeptEntry(before[id := entry], map_, id);
        if !roomy { return false; }
      }
      KeptEntry(before[id := entry], map_, id);
      var locked := map_[id].(lockState := LS_LOCKED);
      KeptLocked(before, map_, id, entry, locked);
      SetKeepsSums(map_, id, locked);
      Counted(map_, id);
      SoundSame(map_, id, readers_, writing_);
      SoundSet(map_, id, locked, readers_, writing_);
      ExactSet(map_, id, locked, files_, writing_);
      map_ := map_[id := locked];
      return true;
    }

    /** Opens a stream of a locked resource for writing, emptying its file. */
    method WriteResource(id: string, index: nat, opens: bool) returns (ok: bool)
      requires Valid() && id in map_
      modifies `map_, `files_, `total_size_, `total_accessors_, `writing_
      ensures Valid()
      ensures ok <==> old(map_[id]).lockState == LS_LOCKED && opens
      ensures !ok ==> map_ == old(map_) && files_ == old(files_) && writing_ == old(writing_)
      ensures ok ==>
        && id in map_ && map_ == old(map_)[id := map_[id]]
        && (var e, was, fileSize := map_[id], old(map_[id]), old(Get(files_, Key(id, index)));
            && e.lockState == LS_LOCKED && e.accessors == was.accessors + 1 && e.lastModified == was.lastModified
            && (if fileSize <= was.size then e.size + fileSize == was.size else e.size == 0)
            && index < e.streams && was.streams <= e.streams && (e.streams > was.streams ==> e.streams == index + 1))
        && files_ == old(files_)[Key(id, index) := 0]
        && writing_ == old(writing_)[Key(id, index) := old(Get(writing_, Key(id, index))) + 1]
      // While sizes are exact, the size taken off never exceeds the entry's size.
      ensures old(Exact() && Get(writing_, Key(id, index)) == 0) ==>
        Exact() && (ok ==> old(Get(files_, Key(id, index)) <= map_[id].size))
    {
      hide SumOf, Sizes, Accessors, Sound, ExactFor;
      var entry := map_[id];
      if entry.lockState != LS_LOCKED { return false; }
      var k := Key(id, index);
      var previous := Min(Get(files_, k), entry.size);
      if !opens { return false; }
      var written := Opened(entry, index, previous);
      Counted(map_, id);
      SetKeepsSums(map_, id, written);
      SoundSame(map_, id, readers_, writing_);
      WritersSet(writing_, k, Get(writing_, k) + 1);
      SoundWriters(map_, k, written, readers_, writing_, Get(writing_, k) + 1);
      if Exact() && Get(writing_, k) == 0 { ExactOpen(map_, k, written, files_, writing_); }
      files_ := files_[k := 0];
      map_ := map_[id := written];
      total_size_ := total_size_ - previous;
      total_accessors_ := total_accessors_ + 1;
      writing_ := writing_[k := Get(writing_, k) + 1];
      return true;
    }

    /** An open write stream changes the size of its file. */
    method WriteStream(k: Key, size: nat)
      requires Valid() && Get(writing_, k) > 0 && k in files_
      modifies `files_
      ensures Valid() && files_ == old(files_)[k := size]
      ensures old(Exact()) ==> Exact()
    {
      assert Closed(files_[k := size], writing_) == Closed(files_, writing_);
      files_ := files_[k := size];
    }

    /** Gives up a lock; it lasts until the last writer is gone. */
    method UnlockResource(id: string, now: int, stuck: set<Key>) returns (ok: bool)
      requires Valid() && id in map_
      modifies `map_, `files_, `total_size_
      ensures Valid()
      ensures ok <==> old(map_[id]).lockState == LS_LOCKED
      ensures ok && old(map_[id]).accessors > 0 ==> map_ == old(map_)[id := old(map_[id]).(lockState := LS_UNLOCKING)]
      ensures ok && old(map_[id]).accessors == 0 ==>
        Kept(old(map_)[id := old(map_[id]).(lockState := LS_UNLOCKED, lastModified := now)], map_, None)
      ensures !ok ==> map_ == old(map_)
      ensures ok && old(map_[id]).accessors == 0 && stuck == {} ==> total_size_ <= max_cache_ || GivesUp(map_, None)
      ensures old(Exact()) && stuck == {} ==> Exact()
    {
      hide SumOf, Sizes, Accessors, Sound, ExactFor, Kept, GivesUp;
      var entry := map_[id];
      if entry.lockState != LS_LOCKED { return false; }
      var changed := if entry.accessors > 0 then entry.(lockState := LS_UNLOCKING)
                     else entry.(lockState := LS_UNLOCKED, lastModified := now);
      SoundSame(map_, id, readers_, writing_);
      SetEntry(id, changed);
      if entry.accessors == 0 { var _ := CheckLimit(None, stuck); }
      return true;
    }

    /** Replaces an entry by one with the same accounts. */
    method SetEntry(id: string, e: Entry)
      requires Valid() && id in map_
      requires e == map_[id].(lockState := e.lockState, lastModified := e.lastModified)
      requires EntrySound(e, Get(readers_, id), Writers(writing_, id))
      modifies `map_
      ensures Valid() && map_ == old(map_)[id := e] && (old(Exact()) ==> Exact())
    {
      hide SumOf, Sizes, Accessors, ExactFor, Sound, EntrySound;
      Counted(map_, id);
      SetKeepsSums(map_, id, e);
      SoundSet(map_, id, e, readers_, writing_);
      ExactSet(map_, id, e, files_, writing_);
      map_ := map_[id := e];
    }

    /** Opens a stream of an unlocked resource for reading. */
    method ReadResource(id: string, index: nat, opens: bool) returns (ok: bool)
      requires Valid() && id in map_
      modifies `map_, `total_accessors_, `readers_
      ensures Valid()
      ensures ok <==> old(map_[id]).lockState == LS_UNLOCKED && index < old(map_[id]).streams && opens
      ensures map_ == if ok then old(map_)[id := old(map_[id]).(accessors := old(map_[id]).accessors + 1)]
        else old(map_)
      ensures readers_ == if ok then old(readers_)[id := old(Get(readers_, id)) + 1] else old(readers_)
      ensures old(Exact()) ==> Exact()
    {
      hide SumOf, Sizes, Accessors, Sound, ExactFor;
      var entry := map_[id];
      if entry.lockState != LS_UNLOCKED || index >= entry.streams || !opens { return false; }
      var read := entry.(accessors := entry.accessors + 1);
      Counted(map_, id);
      SetKeepsSums(map_, id, read);
      SoundSame(map_, id, readers_, writing_);
      SoundReaders(map_, id, read, readers_, Get(readers_, id) + 1, writing_);
      ExactSet(map_, id, read, files_, writing_);
      map_ := map_[id := read];
      total_accessors_ := total_accessors_ + 1;
      readers_ := readers_[id := Get(readers_, id) + 1];
      return true;
    }

    /** A stream opened for reading is closed. Its entry is there to be updated. */
    method ReleaseReader(id: string)
      requires Valid() && Get(readers_, id) > 0
      modifies `map_, `total_accessors_, `readers_
      ensures Valid() && id in old(map_)
      ensures map_ == old(map_)[id := old(map_[id]).(accessors := old(map_[id]).accessors - 1)]
      ensures readers_ == old(readers_)[id := old(Get(readers_, id)) - 1]
      ensures old(Exact()) ==> Exact()
    {
      hide SumOf, Sizes, Accessors, ExactFor, Of, Sound;
      HasEntryToRead(map_, id, readers_, writing_);
      var entry := map_[id];
      Counted(map_, id);
      SoundSame(map_, id, readers_, writing_);
      var released := entry.(accessors := entry.accessors - 1);
      SetKeepsSums(map_, id, released);
      SoundReaders(map_, id, released, readers_, Get(readers_, id) - 1, writing_);
      ExactSet(map_, id, released, files_, writing_);
      map_ := map_[id := released];
      total_accessors_ := total_accessors_ - 1;
      readers_ := readers_[id := Get(readers_, id) - 1];
    }

    /** A stream opened for writing is closed: its size counts, and the last one completes an unlock. */
    method ReleaseWriter(id: string, index: nat, now: int, stuck: set<Key>)
      requires Valid() && Get(writing_, Key(id, index)) > 0
      modifies `map_, `files_, `total_size_, `total_accessors_, `writing_
      ensures Valid() && id in old(map_) && old(map_[id]).accessors > 0
      ensures writing_ == old(writing_)[Key(id, index) := old(Get(writing_, Key(id, index))) - 1]
      ensures var e := old(map_[id]);
        var after := old(map_)[id := Released(e, old(Get(files_, Key(id, index))), now)];
        if e.lockState == LS_UNLOCKING && e.accessors == 1
        then Kept(after, map_, None) && (stuck == {} ==> total_size_ <= max_cache_ || GivesUp(map_, None))
        else map_ == after
      ensures old(Exact()) && stuck == {} ==> Exact()
    {
      hide SumOf, Sizes, Accessors, Sound, ExactFor, Kept;
      HasEntry(map_, Key(id, index), readers_, writing_);
      var entry := map_[id];
      CloseWriter(id, index, now);
      if entry.lockState == LS_UNLOCKING && entry.accessors == 1 { var _ := CheckLimit(None, stuck); }
    }

    /** The accounts of closing a writer. */
    method CloseWriter(id: string, index: nat, now: int)
      requires Valid() && Get(writing_, Key(id, index)) > 0 && id in map_ && map_[id].accessors > 0
      modifies `map_, `total_size_, `total_accessors_, `writing_
      ensures Valid()
      ensures id in map_ && map_ == old(map_)[id := map_[id]]
      ensures var e, was := map_[id], old(map_[id]);
        && e == Released(was, Get(files_, Key(id, index)), now)
        && e.accessors + 1 == was.accessors && e.size == was.size + Get(files_, Key(id, index))
        && e.streams == was.streams
        && if was.lockState == LS_UNLOCKING && was.accessors == 1
           then e.lockState == LS_UNLOCKED && e.lastModified == now
           else e.lockState == was.lockState && e.lastModified == was.lastModified
      ensures writing_ == old(writing_)[Key(id, index) := old(Get(writing_, Key(id, index))) - 1]
      ensures old(Exact()) ==> Exact()
    {
      hide SumOf, Sizes, Accessors, Sound, ExactFor, Of;
      var k := Key(id, index);
      var newSize := Get(files_, k);
      var released := Released(map_[id], newSize, now);
      WritersSet(writing_, k, Get(writing_, k) - 1);
      Counted(map_, id);
      SoundSame(map_, id, readers_, writing_);
      SetKeepsSums(map_, id, released);
      SoundWriters(map_, k, released, readers_, writing_, Get(writing_, k) - 1);
      if Exact() {
        OneWriter(map_, files_, writing_, k);
        ExactClose(map_, k, released, files_, writing_);
      }
      map_ := map_[id := released];
      total_accessors_ := total_accessors_ - 1;
      total_size_ := total_size_ + newSize;
      writing_ := writing_[k := Get(writing_, k) - 1];
    }

    /** Purging deletes the files, unless some are stuck, and forgets the entries but not the size they had. */
    method Purge(stuck: set<Key>) returns (ok: bool)
      requires Valid()
      modifies `map_, `files_
      ensures ok <==> total_accessors_ == 0 && files_ == map[]
      ensures forall k :: k in files_ <==> k in old(files_) && (total_accessors_ > 0 || k in stuck)
      ensures forall k :: k in files_ ==> files_[k] == old(files_)[k]
      ensures map_ == if ok then map[] else old(map_)
      ensures ok ==> (Valid() <==> total_size_ == 0)
    {
      if total_accessors_ > 0 { return false; }
      files_ := Only(files_, stuck);
      if files_ != map[] { return false; }
      NoAccessorsNoStreams(map_, readers_, writing_);
      map_ := map[];
      return true;
    }

    /** GetOrCreateEntry for a resource without an entry. */
    method MakeEntry(id: string, now: int)
      requires Valid() && id !in map_
      modifies `map_
      ensures Valid() && map_ == old(map_)[id := Entry(LS_UNLOCKED, 0, 0, 0, now)]
      ensures old(Exact()) ==> Exact()
    {
      hide SumOf, Sizes, Accessors, ExactFor;
      SetKeepsSums(map_, id, NewEntry(now));
      assert Get(Sizes(map_), id) == 0 && Get(Accessors(map_), id) == 0 by { NotCounted(map_, id); }
      SoundSet(map_, id, NewEntry(now), readers_, writing_);
      if Exact() { ExactNew(map_, id, NewEntry(now), files_, writing_); }
      map_ := map_[id := NewEntry(now)];
    }
  }

  // ---- Runs --------------------------------------------------------------

  /** At most so many streams write the file k after the operation, when at most n did before. */
  function WritersAfter(op: Operation, k: Key, n: nat): nat {
    if op == Write(k.id, k.index) then n + 1
    else if op == CloseWriter(k.id, k.index) && n > 0 then n - 1
    else n
  }

  function WritersBy(events: seq<Event>, k: Key): nat {
    if events == [] then 0 else WritersAfter(events[|events| - 1].op, k, WritersBy(events[..|events| - 1], k))
  }

  ghost predicate OrderlyAt(events: seq<Event>, i: nat)
    requires i < |events|
  {
    && events[i].stuck == {}
    && (events[i].op.Write? ==> WritersBy(events[..i], Key(events[i].op.id, events[i].op.index)) == 0)
  }

  /** No deletion fails, and no file is opened for writing while it may still be open for writing. */
  ghost predicate Orderly(events: seq<Event>) {
    forall i :: 0 <= i < |events| ==> OrderlyAt(events, i)
  }

  /** The streams open for writing after a call: a writer comes to a locked resource only, and goes if it was there. */
  function WritingAfter(m: map<string, Entry>, writing: map<Key, nat>, e: Event): map<Key, nat> {
    match e.op
    case Write(id, index) =>
      if id in m && m[id].lockState == LS_LOCKED && e.opens
      then writing[Key(id, index) := Get(writing, Key(id, index)) + 1] else writing
    case CloseWriter(id, index) =>
      var n := Get(writing, Key(id, index));
      if n > 0 then writing[Key(id, index) := n - 1] else writing
    case _ => writing
  }

  /** A reader comes to an unlocked resource only, for a stream it has. */
  function ReadersAfter(m: map<string, Entry>, readers: map<string, nat>, e: Event): map<string, nat> {
    match e.op
    case Read(id, index) =>
      if id in m && m[id].lockState == LS_UNLOCKED && index < m[id].streams && e.opens
      then readers[id := Get(readers, id) + 1] else readers
    case CloseReader(id) =>
      var n := Get(readers, id);
      if n > 0 then readers[id := n - 1] else readers
    case _ => readers
  }

  predicate NoSecondWriter(writing: map<Key, nat>, op: Operation) {
    op.Write? ==> Get(writing, Key(op.id, op.index)) == 0
  }

  /** What one call does, and what it leaves alone. */
  twostate predicate Applied(c: DiskCache, e: Event)
    requires old(c.Valid())
    reads c
  {
    && (old(c.Exact()) && e.stuck == {} && NoSecondWriter(old(c.writing_), e.op) ==> c.Exact())
    && c.writing_ == WritingAfter(old(c.map_), old(c.writing_), e)
    && c.readers_ == ReadersAfter(old(c.map_), old(c.readers_), e)
    && (e.op.Lock? && old(c.total_size_ <= c.max_cache_ && e.op.id !in c.map_) ==>
          e.op.id in c.map_ && c.map_[e.op.id].lockState == LS_LOCKED)
    && (e.op.Unlock? && e.op.id in c.map_ ==> c.map_[e.op.id].lockState != LS_LOCKED)
    && (e.op.Fill? && old(Get(c.writing_, e.op.key) > 0 && e.op.key in c.files_) ==>
          c.files_ == old(c.files_)[e.op.key := e.op.size])
    // An entry goes only when it is free, or is set free by its unlock or its last writer.
    && (forall id :: id in old(c.map_) && id !in c.map_ ==>
          || (old(c.map_[id]).lockState == LS_UNLOCKED && old(c.map_[id]).accessors == 0)
          || e.op == Unlock(id) || (e.op.CloseWriter? && e.op.id == id))
    // A free entry is deleted when that is asked for, and a lock holds until it is given up.
    && (e.op.Delete? && e.op.id in old(c.map_) ==>
          (e.op.id !in c.map_ <==>
             old(c.map_[e.op.id]).lockState == LS_UNLOCKED && old(c.map_[e.op.id]).accessors == 0))
    && (forall id :: id in old(c.map_) && old(c.map_[id]).lockState == LS_LOCKED && e.op != Unlock(id) ==>
          id in c.map_ && c.map_[id].lockState == LS_LOCKED)
  }

  method ApplyToStream(c: DiskCache, e: Event)
    requires c.Valid() && (e.op.Write? || e.op.Fill? || e.op.Read? || e.op.CloseReader? || e.op.CloseWriter?)
    modifies c
    ensures c.Valid() && Applied(c, e) && c.history_ == old(c.history_)
  {
    hide DiskCache.Valid, DiskCache.Exact;
    match e.op {
      case Write(id, index) =>
        if id in c.map_ { var _ := c.WriteResource(id, index, e.opens); }
      case Fill(k, size) =>
        if Get(c.writing_, k) > 0 && k in c.files_ { c.WriteStream(k, size); }
      case Read(id, index) =>
        if id in c.map_ { var _ := c.ReadResource(id, index, e.opens); }
      case CloseReader(id) =>
        if Get(c.readers_, id) > 0 { c.ReleaseReader(id); }
      case CloseWriter(id, index) =>
        if Get(c.writing_, Key(id, index)) > 0 { c.ReleaseWriter(id, index, e.now, e.stuck); }
    }
  }

  method ApplyToEntry(c: DiskCache, e: Event)
    requires c.Valid() && (e.op.Lock? || e.op.Unlock? || e.op.Delete?)
    modifies c
    ensures c.Valid() && Applied(c, e) && c.history_ == old(c.history_)
  {
    hide DiskCache.Valid, DiskCache.Exact;
    match e.op {
      case Lock(id) => var _ := c.LockResource(id, e.now, e.stuck);
      case Unlock(id) =>
        if id in c.map_ { var _ := c.UnlockResource(id, e.now, e.stuck); }
      case Delete(id) => var _ := c.DeleteResource(id, e.stuck);
    }
  }

  method Apply(c: DiskCache, e: Event)
    requires c.Valid()
    modifies c
    ensures c.Valid() && Applied(c, e) && c.history_ == old(c.history_) + [e]
    ensures forall k :: Get(c.writing_, k) <= WritersAfter(e.op, k, old(Get(c.writing_, k)))
  {
    hide DiskCache.Valid, DiskCache.Exact;
    if e.op.Lock? || e.op.Unlock? || e.op.Delete? { ApplyToEntry(c, e); } else { ApplyToStream(c, e); }
    c.history_ := c.history_ + [e];
  }

  /** No more streams write a file than the events can have left. */
  ghost predicate FewWriters(writing: map<Key, nat>, events: seq<Event>) {
    forall k :: Get(writing, k) <= WritersBy(events, k)
  }

  lemma FewWritersNext(before: map<Key, nat>, after: map<Key, nat>, events: seq<Event>, i: nat)
    requires i < |events| && FewWriters(before, events[..i])
    requires forall k :: Get(after, k) <= WritersAfter(events[i].op, k, Get(before, k))
    ensures FewWriters(after, events[..i + 1])
  {
    assert events[..i + 1][..i] == events[..i];
  }

  lemma OrderlyEvent(writing: map<Key, nat>, events: seq<Event>, i: nat)
    requires Orderly(events) && i < |events| && FewWriters(writing, events[..i])
    ensures events[i].stuck == {} && NoSecondWriter(writing, events[i].op)
  {
    assert OrderlyAt(events, i);
  }

  lemma NextEvent(events: seq<Event>, i: nat)
    requires i < |events|
    ensures events[..i + 1] == events[..i] + [events[i]]
  {
  }

  /**
   * Every run on existing entries keeps the books, whatever cannot be opened or deleted; and each
   * size is exact in the runs in which deletions succeed and a file has one writer at a time.
   */
  method Run(size: nat, events: seq<Event>) returns (c: DiskCache)
    ensures fresh(c) && c.Valid() && c.history_ == events
    ensures c.total_size_ == SumOf(Sizes(c.map_)) && c.total_accessors_ == SumOf(Accessors(c.map_))
    ensures Orderly(events) ==> forall id :: id in c.map_ ==> c.map_[id].size == ClosedSize(c.files_, c.writing_, id)
  {
    c := new DiskCache(size);
    for i := 0 to |events|
      invariant c.Valid() && c.history_ == events[..i]
      invariant FewWriters(c.writing_, events[..i])
      invariant Orderly(events) ==> c.Exact()
    {
      hide DiskCache.Valid, DiskCache.Exact, WritingAfter, ReadersAfter, WritersAfter, WritersBy, Orderly, FewWriters;
      if Orderly(events) { OrderlyEvent(c.writing_, events, i); }
      ghost var before := c.writing_;
      Apply(c, events[i]);
      FewWritersNext(before, c.writing_, events, i);
      NextEvent(events, i);
    }
  }

  /** While a resource is locked, or its lock is being given up, nobody reads it. */
  lemma LockedIsNotRead(c: DiskCache, id: string)
    requires c.Valid() && id in c.map_
    ensures c.map_[id].lockState != LS_UNLOCKED ==> Get(c.readers_, id) == 0
    ensures c.map_[id].lockState == LS_UNLOCKING ==> c.map_[id].accessors > 0
    ensures Get(c.readers_, id) > 0 ==> forall k: Key :: k.id == id ==> Get(c.writing_, k) == 0
  {
    SoundSame(c.map_, id, c.readers_, c.writing_);
    forall k: Key | k.id == id ensures Get(c.writing_, k) <= Writers(c.writing_, id) {
      WritersSet(c.writing_, k, 0);
    }
  }

  /**
   * A granted lock holds in every run, until it is given up: whatever else is opened, closed,
   * deleted or evicted, the resource stays, locked; nobody else gets the lock, and nobody reads it.
   */
  method HoldLock(c: DiskCache, id: string, now: int, events: seq<Event>) returns (granted: bool)
    requires c.Valid() && forall e :: e in events ==> e.op != Unlock(id)
    modifies c
    ensures c.Valid()
    ensures granted ==> id in c.map_ && c.map_[id].lockState == LS_LOCKED && Get(c.readers_, id) == 0
    ensures granted ==> c.history_ == old(c.history_) + events
  {
    hide DiskCache.Valid;
    granted := c.LockResource(id, now, {});
    if !granted { return; }
    for i := 0 to |events|
      invariant c.Valid() && id in c.map_ && c.map_[id].lockState == LS_LOCKED
      invariant c.history_ == old(c.history_) + events[..i]
    {
      hide DiskCache.Exact;
      Apply(c, events[i]);
    }
    LockedIsNotRead(c, id);
  }

  lemma KeptAlone(id: string, e: Entry, m: map<string, Entry>)
    requires Kept(map[id := e], m, Some(id))
    ensures m == map[id := e]
  {
  }

  predicate Sole(m: map<string, Entry>, id: string) { id in m && forall j :: j in m ==> j == id }

  method FirstLock(id: string) returns (c: DiskCache)
    ensures fresh(c) && c.Valid() && Sole(c.map_, id) && c.map_[id] == Entry(LS_LOCKED, 0, 0, 0, 0)
    ensures Get(c.files_, Key(id, 0)) == 0 && Get(c.writing_, Key(id, 0)) == 0
  {
    hide SumOf, Sizes, Accessors, Sound, ExactFor, Kept, DiskCache.Valid, DiskCache.Exact;
    c := new DiskCache(10);
    assert c.total_size_ <= c.max_cache_;
    var ok := c.LockResource(id, 0, {});
    KeptAlone(id, c.map_[id], c.map_);
  }

  lemma OnlyChanged(m: map<string, Entry>, id: string, e: Entry)
    requires Sole(m, id)
    ensures Sole(m[id := e], id)
  {
  }

  lemma FirstOpened(e: Entry)
    requires e.streams == 0 && e.size == 0
    ensures Opened(e, 0, 0) == e.(streams := 1, accessors := e.accessors + 1)
  {
  }

  lemma FirstReleased(e: Entry)
    requires e.accessors == 1 && e.lockState == LS_LOCKED
    ensures Released(e, 3, 0) == e.(accessors := 0, size := e.size + 3)
  {
  }

  method WriteThree(c: DiskCache, id: string)
    requires c.Valid() && id in c.map_ && Sole(c.map_, id) && c.map_[id] == Entry(LS_LOCKED, 0, 0, 0, 0)
    requires Get(c.files_, Key(id, 0)) == 0 && Get(c.writing_, Key(id, 0)) == 0
    modifies c
    ensures c.Valid() && id in c.map_ && Sole(c.map_, id) && c.map_[id] == Entry(LS_LOCKED, 1, 0, 1, 0)
    ensures Get(c.files_, Key(id, 0)) == 3 && Get(c.writing_, Key(id, 0)) == 1
  {
    hide SumOf, Sizes, Accessors, Sound, ExactFor, Sole, Opened, DiskCache.Valid, DiskCache.Exact;
    OnlyChanged(c.map_, id, Opened(c.map_[id], 0, 0));
    FirstOpened(c.map_[id]);
    var _ := c.WriteResource(id, 0, true);
    c.WriteStream(Key(id, 0), 3);
  }

  method CloseThree(c: DiskCache, id: string)
    requires c.Valid() && id in c.map_ && Sole(c.map_, id) && c.map_[id] == Entry(LS_LOCKED, 1, 0, 1, 0)
    requires Get(c.files_, Key(id, 0)) == 3 && Get(c.writing_, Key(id, 0)) == 1
    modifies c
    ensures c.Valid() && Sole(c.map_, id) && c.map_[id] == Entry(LS_LOCKED, 0, 3, 1, 0)
  {
    hide SumOf, Sizes, Accessors, Sound, ExactFor, Kept, Sole, Released, DiskCache.Valid, DiskCache.Exact;
    OnlyChanged(c.map_, id, Released(c.map_[id], 3, 0));
    FirstReleased(c.map_[id]);
    c.ReleaseWriter(id, 0, 0, {});
  }

  lemma OnlyEntry(m: map<string, Entry>, id: string)
    requires Sole(m, id)
    ensures SumOf(Sizes(m)) == m[id].size && SumOf(Accessors(m)) == m[id].accessors
  {
    SumRemove(Sizes(m), id);
    SumRemove(Accessors(m), id);
    assert Sizes(m) - {id} == map[] && Accessors(m) - {id} == map[];
  }

  lemma NothingStuck(files: map<Key, nat>)
    ensures Only(files, {}) == map[]
  {
  }

  /** A resource of three bytes, purged: nothing is left but its size. */
  method PurgeLeavesSize() returns (c: DiskCache)
    ensures fresh(c) && c.map_ == map[] && c.files_ == map[] && c.total_size_ == 3 && !c.Valid()
  {
    hide SumOf, Sizes, Accessors, Sound, Only;
    c := FirstLock("id");
    WriteThree(c, "id");
    CloseThree(c, "id");
    OnlyEntry(c.map_, "id");
    NothingStuck(c.files_);
    var ok := c.Purge({});
  }
}
