/** ChunkManager: the map from chunk index to chunk, the FIFO of indices
    waiting to be built and the FIFO of built chunks waiting to be published.
    The loading thread's loop body is one atomic step; the mutex, the thread
    and rendering are outside the model. */
module ChunkManager {
  import opened Wrappers
  import StdMap

  /** A chunk index: a `glm::vec2` holding whole numbers. */
  datatype Index2 = Index2(x: int, y: int)

  /** `Vec2Comparator`: `std::tie(a.x, a.y) < std::tie(b.x, b.y)`, i.e.
      std::tuple's operator<, which compares x and falls through to y only
      when neither x is smaller. */
  predicate TieLess(a: Index2, b: Index2) {
    a.x < b.x || (!(b.x < a.x) && a.y < b.y)
  }

  /** The comparator is the lexicographic order on (x, y). */
  lemma ComparatorIsLexicographic(a: Index2, b: Index2)
    ensures TieLess(a, b) <==> a.x < b.x || (a.x == b.x && a.y < b.y)
  {
  }

  /** It is a strict weak order: irreflexive, asymmetric and transitive. */
  lemma ComparatorIsStrictOrder(a: Index2, b: Index2, c: Index2)
    ensures !TieLess(a, a)
    ensures TieLess(a, b) ==> !TieLess(b, a)
    ensures TieLess(a, b) && TieLess(b, c) ==> TieLess(a, c)
  {
  }

  /** Two indices are equivalent under the comparator exactly when they are
      equal, so the map holds at most one entry per index. */
  lemma ComparatorEquivalenceIsEquality(a: Index2, b: Index2)
    ensures !TieLess(a, b) && !TieLess(b, a) <==> a.x == b.x && a.y == b.y
  {
  }

  /** A built chunk: its index and the number of faces its mesh holds. */
  datatype LoadedChunk = LoadedChunk(index: Index2, faceCount: nat)

  /** A `Chunk*`. */
  datatype ChunkPtr = Null | Ptr(chunk: LoadedChunk)

  datatype Manager = Manager(
    world: map<Index2, ChunkPtr>,   // worldChunks
    requests: seq<Index2>,          // indexToLoad, front first
    loaded: seq<LoadedChunk>)       // loadedChunks, front first

  const EmptyManager: Manager := Manager(map[], [], [])

  /** `addChunk`: queue an index for the loader. */
  function AddChunk(m: Manager, i: Index2): (r: Manager)
    ensures r.requests == m.requests + [i] && r.requests[|m.requests|] == i
    ensures r.world == m.world && r.loaded == m.loaded
  {
    m.(requests := m.requests + [i])
  }

  /** Row x of the square initChunks walks: y from -r to r. */
  function Row(x: int, r: nat): seq<Index2> {
    seq(2 * r + 1, j => Index2(x, j - r))
  }

  /** The rows -r .. x-1, in loop order. */
  function RowsBelow(r: nat, x: int): seq<Index2>
    requires -(r as int) <= x <= r + 1
    decreases x + r
  {
    if x == -(r as int) then [] else RowsBelow(r, x - 1) + Row(x - 1, r)
  }

  /** Every index initChunks(r) queues, in the order it queues them. */
  function InitOrder(r: nat): seq<Index2> {
    RowsBelow(r, r + 1)
  }

  predicate InSquare(r: nat, i: Index2) {
    -(r as int) <= i.x <= r && -(r as int) <= i.y <= r
  }

  predicate Ascending(s: seq<Index2>) {
    forall i, j :: 0 <= i < j < |s| ==> TieLess(s[i], s[j])
  }

  lemma RowContents(x: int, r: nat)
    ensures Ascending(Row(x, r))
    ensures forall i :: i in Row(x, r) <==> i.x == x && -(r as int) <= i.y <= r
  {
    forall i: Index2 | i.x == x && -(r as int) <= i.y <= r ensures i in Row(x, r) {
      assert Row(x, r)[i.y + r] == i;
    }
  }

  lemma RowsBelowContents(r: nat, x: int)
    requires -(r as int) <= x <= r + 1
    ensures |RowsBelow(r, x)| == (x + r) * (2 * r + 1)
    ensures Ascending(RowsBelow(r, x))
    ensures forall i :: i in RowsBelow(r, x) <==> -(r as int) <= i.x < x && -(r as int) <= i.y <= r
  {
    RowsBelowLength(r, x);
    RowsBelowMembers(r, x);
    RowsBelowAscending(r, x);
  }

  lemma {:induction false} RowsBelowLength(r: nat, x: int)
    requires -(r as int) <= x <= r + 1
    ensures |RowsBelow(r, x)| == (x + r) * (2 * r + 1)
    decreases x + r
  {
    if x > -(r as int) {
      RowsBelowLength(r, x - 1);
      assert (x - 1 + r) * (2 * r + 1) + (2 * r + 1) == (x + r) * (2 * r + 1);
    }
  }

  lemma {:induction false} RowsBelowMembers(r: nat, x: int)
    requires -(r as int) <= x <= r + 1
    ensures forall i :: i in RowsBelow(r, x) <==> -(r as int) <= i.x < x && -(r as int) <= i.y <= r
    decreases x + r
  {
    if x > -(r as int) {
      RowsBelowMembers(r, x - 1);
      RowContents(x - 1, r);
    }
  }

  lemma {:induction false} RowsBelowAscending(r: nat, x: int)
    requires -(r as int) <= x <= r + 1
    ensures Ascending(RowsBelow(r, x))
    decreases x + r
  {
    if x > -(r as int) {
      RowsBelowAscending(r, x - 1);
      RowsBelowMembers(r, x - 1);
      RowContents(x - 1, r);
      var a, b := RowsBelow(r, x - 1), Row(x - 1, r);
      forall u, v | u in a && v in b ensures TieLess(u, v) {
        assert u.x < x - 1 && v.x == x - 1;
      }
      AscendingConcat(a, b);
    }
  }

  /** Two ascending runs, every element of the first below every element of
      the second, make one ascending run. */
  lemma AscendingConcat(a: seq<Index2>, b: seq<Index2>)
    requires Ascending(a) && Ascending(b)
    requires forall u, v :: u in a && v in b ==> TieLess(u, v)
    ensures Ascending(a + b)
  {
    forall i, j | 0 <= i < j < |a + b| ensures TieLess((a + b)[i], (a + b)[j]) {
      if j < |a| {
        assert (a + b)[i] == a[i] && (a + b)[j] == a[j];
      } else if i < |a| {
        assert (a + b)[i] == a[i] && a[i] in a && (a + b)[j] == b[j - |a|] && b[j - |a|] in b;
      } else {
        assert (a + b)[i] == b[i - |a|] && (a + b)[j] == b[j - |a|];
      }
    }
  }

  /** `initChunks(r)` queues exactly the (2r+1)^2 indices of the square
      [-r, r] x [-r, r], each once, in x-major then ascending-y order. */
  lemma InitOrderContents(r: nat)
    ensures |InitOrder(r)| == (2 * r + 1) * (2 * r + 1)
    ensures Ascending(InitOrder(r))
    ensures forall i :: i in InitOrder(r) <==> InSquare(r, i)
  {
    RowsBelowContents(r, r + 1);
  }

  /** `initChunks(renderDistance)`: two nested loops calling addChunk. */
  method InitChunks(m: Manager, renderDistance: nat) returns (r: Manager)
    requires renderDistance < 256
    ensures r.requests == m.requests + InitOrder(renderDistance)
    ensures r.world == m.world && r.loaded == m.loaded
  {
    var rd: int := renderDistance;
    r := m;
    var x := -rd;
    while x <= rd
      invariant -rd <= x <= rd + 1
      invariant r.requests == m.requests + RowsBelow(renderDistance, x)
      invariant r.world == m.world && r.loaded == m.loaded
    {
      var y := -rd;
      while y <= rd
        invariant -rd <= y <= rd + 1
        invariant r.requests == m.requests + RowsBelow(renderDistance, x) + Row(x, renderDistance)[..y + rd]
        invariant r.world == m.world && r.loaded == m.loaded
      {
        assert Row(x, renderDistance)[..y + rd + 1] == Row(x, renderDistance)[..y + rd] + [Index2(x, y)];
        r := AddChunk(r, Index2(x, y));
        y := y + 1;
      }
      assert Row(x, renderDistance)[..y + rd] == Row(x, renderDistance);
      x := x + 1;
    }
  }

  /** One pass of the loading thread's loop: idle on an empty queue, else pop
      the front index, build its chunk with `build` (the `Chunk` constructor)
      and queue the chunk for publication. */
  function LoaderStep(m: Manager, build: Index2 -> nat): (r: Manager)
    ensures m.requests == [] ==> r == m
    ensures m.requests != [] ==>
              && r.requests == m.requests[1..]
              && r.loaded == m.loaded + [LoadedChunk(m.requests[0], build(m.requests[0]))]
              && r.world == m.world
  {
    if m.requests == [] then m
    else
      var index := m.requests[0];
      m.(requests := m.requests[1..], loaded := m.loaded + [LoadedChunk(index, build(index))])
  }

  /** `n` passes of the loading thread. */
  function LoaderSteps(m: Manager, build: Index2 -> nat, n: nat): Manager
    decreases n
  {
    if n == 0 then m else LoaderSteps(LoaderStep(m, build), build, n - 1)
  }

  /** The chunks built for a run of indices, in order. */
  function Build(ids: seq<Index2>, build: Index2 -> nat): (cs: seq<LoadedChunk>)
    ensures |cs| == |ids|
    ensures forall k :: 0 <= k < |ids| ==> cs[k] == LoadedChunk(ids[k], build(ids[k]))
  {
    seq(|ids|, k requires 0 <= k < |ids| => LoadedChunk(ids[k], build(ids[k])))
  }

  /** Both queues are FIFOs: n loader passes serve the first n requests in
      order and leave the map alone. */
  lemma {:induction false} LoaderServesInOrder(m: Manager, build: Index2 -> nat, n: nat)
    requires n <= |m.requests|
    ensures LoaderSteps(m, build, n).requests == m.requests[n..]
    ensures LoaderSteps(m, build, n).loaded == m.loaded + Build(m.requests[..n], build)
    ensures LoaderSteps(m, build, n).world == m.world
    decreases n
  {
    if n > 0 {
      var m' := LoaderStep(m, build);
      var x := LoadedChunk(m.requests[0], build(m.requests[0]));
      assert m'.loaded == m.loaded + [x];
      assert m'.requests == m.requests[1..];
      LoaderServesInOrder(m', build, n - 1);
      assert LoaderSteps(m, build, n) == LoaderSteps(m', build, n - 1);
      assert m'.requests[n - 1..] == m.requests[n..];
      assert m'.requests[..n - 1] == m.requests[1..n];
      BuildCons(m.requests, n, build);
      LoadedAssoc(m.loaded, x, Build(m.requests[1..n], build));
    }
  }

  lemma LoadedAssoc(a: seq<LoadedChunk>, x: LoadedChunk, b: seq<LoadedChunk>)
    ensures (a + [x]) + b == a + ([x] + b)
  {
  }

  lemma BuildCons(ids: seq<Index2>, n: nat, build: Index2 -> nat)
    requires 0 < n <= |ids|
    ensures Build(ids[..n], build) == [LoadedChunk(ids[0], build(ids[0]))] + Build(ids[1..n], build)
  {
  }

  /** The last chunk of `cs` built for index k, if any. */
  function LastFor(cs: seq<LoadedChunk>, k: Index2): (r: Option<LoadedChunk>)
    ensures r.None? <==> forall i :: 0 <= i < |cs| ==> cs[i].index != k
    ensures r.Some? ==> exists i :: 0 <= i < |cs| && cs[i] == r.value && cs[i].index == k
                          && forall j :: i < j < |cs| ==> cs[j].index != k
  {
    if cs == [] then None
    else if cs[|cs| - 1].index == k then Some(cs[|cs| - 1])
    else
      var r := LastFor(cs[..|cs| - 1], k);
      assert forall i :: 0 <= i < |cs| - 1 ==> cs[..|cs| - 1][i] == cs[i];
      r
  }

  /** `worldChunks[c->getChunkIndex()] = c` for each chunk in queue order. */
  function StoreAll(w: map<Index2, ChunkPtr>, cs: seq<LoadedChunk>): map<Index2, ChunkPtr> {
    if cs == [] then w
    else StoreAll(w, cs[..|cs| - 1])[cs[|cs| - 1].index := Ptr(cs[|cs| - 1])]
  }

  /** Publishing stores every queued chunk under its index, a later chunk
      replacing an earlier one with the same index; other keys keep their value. */
  lemma {:induction false} StoreAllSpec(w: map<Index2, ChunkPtr>, cs: seq<LoadedChunk>, k: Index2)
    ensures k in StoreAll(w, cs) <==> k in w || LastFor(cs, k).Some?
    ensures LastFor(cs, k).Some? ==> StoreAll(w, cs)[k] == Ptr(LastFor(cs, k).value)
    ensures LastFor(cs, k).None? && k in w ==> StoreAll(w, cs)[k] == w[k]
  {
    if cs != [] {
      StoreAllSpec(w, cs[..|cs| - 1], k);
    }
  }

  /** `checkForLoadedChunks`: drain the completion queue into the map. */
  function CheckForLoadedChunks(m: Manager): (r: Manager)
    ensures r.loaded == [] && r.requests == m.requests
    ensures forall k :: k in r.world <==> k in m.world || LastFor(m.loaded, k).Some?
  {
    forall k ensures k in StoreAll(m.world, m.loaded) <==> k in m.world || LastFor(m.loaded, k).Some? {
      StoreAllSpec(m.world, m.loaded, k);
    }
    m.(world := StoreAll(m.world, m.loaded), loaded := [])
  }

  /** `getChunkAtIndex`: look the index up without inserting it. */
  function GetChunkAtIndex(m: Manager, i: Index2): (r: ChunkPtr)
    ensures i in m.world ==> r == m.world[i]
    ensures i !in m.world ==> r == Null
  {
    if i in m.world then StdMap.Subscript(m.world, i, Null).1 else Null
  }

  /** After publishing, an index reads back the last chunk queued for it. */
  lemma LookupAfterPublish(m: Manager, i: Index2)
    requires LastFor(m.loaded, i).Some?
    ensures GetChunkAtIndex(CheckForLoadedChunks(m), i) == Ptr(LastFor(m.loaded, i).value)
  {
    StoreAllSpec(m.world, m.loaded, i);
  }

  /** `removeChunk`: `worldChunks[i]` (inserting null when absent; deleting a
      null pointer does nothing), then erase the key. */
  function RemoveChunk(m: Manager, i: Index2): (r: Manager)
    ensures i !in r.world
    ensures forall k :: k != i ==> (k in r.world <==> k in m.world)
    ensures forall k :: k != i && k in m.world ==> r.world[k] == m.world[k]
    ensures r.requests == m.requests && r.loaded == m.loaded
  {
    var (w, _) := StdMap.Subscript(m.world, i, Null);
    m.(world := w - {i})
  }

  lemma LookupAfterRemove(m: Manager, i: Index2)
    ensures GetChunkAtIndex(RemoveChunk(m, i), i) == Null
  {
  }

  predicate NoNulls(w: map<Index2, ChunkPtr>) {
    forall k :: k in w ==> w[k].Ptr?
  }

  /** `renderChunks`: collect the keys whose pointer is null, then erase them;
      every non-null entry is kept (and rendered). */
  function RenderChunks(m: Manager): (r: Manager)
    ensures forall k :: k in r.world <==> k in m.world && m.world[k] != Null
    ensures forall k :: k in r.world ==> r.world[k] == m.world[k]
    ensures r.requests == m.requests && r.loaded == m.loaded
  {
    var nullIndexes := set k | k in m.world && m.world[k].Null?;
    m.(world := m.world - nullIndexes)
  }

  /** Pruning leaves no nulls, is idempotent and keeps a null-free map whole. */
  lemma RenderPrunesNulls(m: Manager)
    ensures NoNulls(RenderChunks(m).world)
    ensures RenderChunks(RenderChunks(m)) == RenderChunks(m)
    ensures NoNulls(m.world) ==> RenderChunks(m) == m
  {
  }

  /** Face count of a non-null entry. */
  function Faces(p: ChunkPtr): nat
    requires p.Ptr?
  {
    p.chunk.faceCount
  }

  /** The sum of face counts over the given keys (order does not matter). */
  ghost function TotalFaces(w: map<Index2, ChunkPtr>, keys: set<Index2>): nat
    requires keys <= w.Keys && NoNulls(w)
    decreases |keys|
  {
    if keys == {} then 0
    else
      var k :| k in keys;
      Faces(w[k]) + TotalFaces(w, keys - {k})
  }

  /** Any key can be taken out of the sum first. */
  lemma {:induction false} TotalFacesRemove(w: map<Index2, ChunkPtr>, keys: set<Index2>, k: Index2)
    requires keys <= w.Keys && NoNulls(w) && k in keys
    ensures TotalFaces(w, keys) == Faces(w[k]) + TotalFaces(w, keys - {k})
    decreases |keys|
  {
    var j :| j in keys && TotalFaces(w, keys) == Faces(w[j]) + TotalFaces(w, keys - {j});
    if j != k {
      TotalFacesRemove(w, keys - {j}, k);
      TotalFacesRemove(w, keys - {k}, j);
      assert keys - {j} - {k} == keys - {k} - {j};
    }
  }

  /** `getFaceCount`: add up every chunk's face count; each entry is
      dereferenced, so the map must hold no null pointer. */
  method GetFaceCount(m: Manager) returns (count: nat)
    requires NoNulls(m.world)
    ensures count == TotalFaces(m.world, m.world.Keys)
  {
    count := 0;
    var rest := m.world.Keys;
    while rest != {}
      invariant rest <= m.world.Keys
      invariant count + TotalFaces(m.world, rest) == TotalFaces(m.world, m.world.Keys)
      decreases |rest|
    {
      var k :| k in rest;
      TotalFacesRemove(m.world, rest, k);
      count := count + m.world[k].chunk.faceCount;
      rest := rest - {k};
    }
  }

  /** Removing a chunk takes exactly its faces out of the total. */
  lemma FaceCountAfterRemove(m: Manager, i: Index2)
    requires NoNulls(m.world) && i in m.world
    ensures NoNulls(RemoveChunk(m, i).world)
    ensures TotalFaces(m.world, m.world.Keys)
         == Faces(m.world[i]) + TotalFaces(RemoveChunk(m, i).world, RemoveChunk(m, i).world.Keys)
  {
    var w' := RemoveChunk(m, i).world;
    TotalFacesRemove(m.world, m.world.Keys, i);
    assert w'.Keys == m.world.Keys - {i};
    TotalFacesSameEntries(m.world, w', w'.Keys);
  }

  /** The sum only reads the entries of the summed keys. */
  lemma {:induction false} TotalFacesSameEntries(w: map<Index2, ChunkPtr>, w': map<Index2, ChunkPtr>, keys: set<Index2>)
    requires keys <= w.Keys && keys <= w'.Keys && NoNulls(w) && NoNulls(w')
    requires forall k :: k in keys ==> w[k] == w'[k]
    ensures TotalFaces(w, keys) == TotalFaces(w', keys)
    decreases |keys|
  {
    if keys != {} {
      var k :| k in keys && TotalFaces(w, keys) == Faces(w[k]) + TotalFaces(w, keys - {k});
      TotalFacesRemove(w', keys, k);
      TotalFacesSameEntries(w, w', keys - {k});
    }
  }

  /** The process-wide singleton slot `ChunkManager::instance`. */
  datatype Process = Process(instance: Option<Manager>)

  /** `getInstance`: construct on the first call only, then hand back the same
      instance. */
  function GetInstance(p: Process): (r: (Process, Manager))
    ensures r.0.instance == Some(r.1)
    ensures p.instance.Some? ==> r.0 == p && r.1 == p.instance.value
    ensures p.instance.None? ==> r.1 == EmptyManager
  {
    match p.instance
    case Some(m) => (p, m)
    case None => (Process(Some(EmptyManager)), EmptyManager)
  }

  lemma GetInstanceStable(p: Process)
    ensures GetInstance(GetInstance(p).0) == GetInstance(p)
  {
  }

  /** For chunks built from a run of indices, the last chunk for k exists
      exactly when k was requested, and it is k's chunk. */
  lemma LastForBuilt(ids: seq<Index2>, build: Index2 -> nat, k: Index2)
    ensures LastFor(Build(ids, build), k).Some? <==> k in ids
    ensures LastFor(Build(ids, build), k).Some? ==> LastFor(Build(ids, build), k).value == LoadedChunk(k, build(k))
  {
    var cs := Build(ids, build);
    if k in ids {
      var i :| 0 <= i < |ids| && ids[i] == k;
      assert cs[i].index == k;
    }
  }

  /** The manager after start-up: initChunks(r) on a fresh manager, as many
      loader passes as there are requests, then one publication. */
  function Startup(r: nat, build: Index2 -> nat): Manager {
    CheckForLoadedChunks(LoaderSteps(EmptyManager.(requests := InitOrder(r)), build, |InitOrder(r)|))
  }

  /** Start-up leaves both queues empty and exactly the (2r+1)^2 chunks of the
      square in the map, each built for its own index. */
  lemma StartupFillsSquare(r: nat, build: Index2 -> nat, k: Index2)
    ensures Startup(r, build).requests == [] && Startup(r, build).loaded == []
    ensures k in Startup(r, build).world <==> InSquare(r, k)
    ensures k in Startup(r, build).world ==> Startup(r, build).world[k] == Ptr(LoadedChunk(k, build(k)))
  {
    var reqs := InitOrder(r);
    InitOrderContents(r);
    var m0 := EmptyManager.(requests := reqs);
    LoaderServesInOrder(m0, build, |reqs|);
    var m1 := LoaderSteps(m0, build, |reqs|);
    assert reqs[..|reqs|] == reqs;
    assert m1.loaded == Build(reqs, build);
    assert m1.world == map[];
    StoreAllSpec(m1.world, m1.loaded, k);
    LastForBuilt(reqs, build, k);
  }

  /** A run of indices in strictly ascending order has as many distinct
      elements as entries. */
  lemma {:induction false} AscendingCardinality(s: seq<Index2>)
    requires Ascending(s)
    ensures |set i | i in s| == |s|
  {
    if s != [] {
      var s' := s[..|s| - 1];
      var last := s[|s| - 1];
      AscendingCardinality(s');
      assert last !in s';
      assert (set i | i in s) == (set i | i in s') + {last} by {
        assert s == s' + [last];
      }
    }
  }

  /** `chunkCount()` after start-up is (2r+1)^2. */
  lemma StartupChunkCount(r: nat, build: Index2 -> nat)
    ensures |Startup(r, build).world| == (2 * r + 1) * (2 * r + 1)
  {
    InitOrderContents(r);
    AscendingCardinality(InitOrder(r));
    forall k ensures k in Startup(r, build).world <==> k in InitOrder(r) {
      StartupFillsSquare(r, build, k);
    }
    assert Startup(r, build).world.Keys == set i | i in InitOrder(r);
  }
}
