/** A guest's video memory: an object forest per client, memory shared by duplicates
    across clients, and a limit held by admission. The class keeps the books step by
    step; the ghost functions say what each step means, and the lemmas carry that
    over whole runs. */
module Vram {
  import opened Basics

  const MIB: nat := 0x10_0000

  /** A client and a handle within it. A client's own handle is the client's number. */
  datatype Key = Key(client: U32, handle: U32)

  datatype Object = Object(parent: U32, memory: Option<nat>)

  /** `holders`: how many live handles name this memory. */
  datatype Memory = Memory(bytes: nat, holders: nat)

  datatype Books = Books(limit: Option<nat>, objects: map<Key, Object>, memory: map<nat, Memory>,
                         nextMemory: nat, files: map<nat, seq<U32>>,
                         inUse: nat, peak: nat, refused: nat)

  function SatAdd(a: nat, b: nat): nat {
    if a + b <= U64_MAX then a + b else U64_MAX
  }

  function SatSub(a: nat, b: nat): nat {
    if b <= a then a - b else 0
  }

  // ---------------------------------------------------------------------
  // What the books mean

  ghost function Holders(objects: map<Key, Object>, id: nat): set<Key> {
    set k | k in objects && objects[k].memory == Some(id)
  }

  /** The memory still named by some object, with the number that name it. */
  ghost function Recount(memory: map<nat, Memory>, objects: map<Key, Object>): map<nat, Memory> {
    map id | id in memory && Holders(objects, id) != {} :: Memory(memory[id].bytes, |Holders(objects, id)|)
  }

  function BytesOf(m: Memory): nat {
    m.bytes
  }

  ghost function Total(memory: map<nat, Memory>): nat {
    Sum(memory, BytesOf)
  }

  /** Every memory is present exactly while some live object names it, and its
      holder count is the number of those objects. */
  ghost predicate Ok(b: Books) {
    && b.memory == Recount(b.memory, b.objects)
    && (forall k :: k in b.objects && b.objects[k].memory.Some? ==> b.objects[k].memory.value in b.memory)
    && (forall id :: id in b.memory ==> id < b.nextMemory)
  }

  /** The running total is the bytes of the memory present. */
  ghost predicate Exact(b: Books) {
    b.inUse == Total(b.memory)
  }

  /** `h` hangs under `root` in `client`: a chain of recorded parents leads from it to `root`. */
  ghost predicate Under(objects: map<Key, Object>, client: U32, root: U32, h: U32) {
    exists path: seq<U32> :: Descends(objects, client, path) && path[0] == root && path[|path| - 1] == h
  }

  ghost predicate Descends(objects: map<Key, Object>, client: U32, path: seq<U32>) {
    && |path| > 0
    && (forall i :: 0 < i < |path| ==>
          Key(client, path[i]) in objects && objects[Key(client, path[i])].parent == path[i - 1])
  }

  /** What freeing a handle takes: the whole client for the client's own handle,
      otherwise everything under the handle within that client. */
  ghost function FreedKeys(objects: map<Key, Object>, client: U32, handle: U32): set<Key> {
    if handle == client then set k | k in objects && k.client == client
    else set k | k in objects && k.client == client && Under(objects, client, handle, k.handle)
  }

  ghost function Dropped(b: Books, keys: set<Key>): Books {
    var objects := b.objects - keys;
    var memory := Recount(b.memory, objects);
    RecountShrinks(b.memory, objects);
    b.(objects := objects, memory := memory, inUse := SatSub(b.inUse, Total(b.memory) - Total(memory)))
  }

  ghost function AfterAllocated(b: Books, client: U32, parent: U32, handle: U32, bytes: Option<nat>): Books {
    var k := Key(client, handle);
    var d := Dropped(b, {k});
    match bytes
    case None => d.(objects := d.objects[k := Object(parent, None)])
    case Some(n) =>
      var inUse := SatAdd(d.inUse, n);
      d.(objects := d.objects[k := Object(parent, Some(d.nextMemory))],
         memory := d.memory[d.nextMemory := Memory(n, 1)],
         nextMemory := d.nextMemory + 1,
         inUse := inUse,
         peak := if inUse > d.peak then inUse else d.peak)
  }

  ghost function MemoryOf(b: Books, k: Key): Option<nat> {
    if k in b.objects then b.objects[k].memory else None
  }

  /** The handle now names the source's memory, and nothing else about who names what has changed. */
  ghost function AfterDuplicated(b: Books, client: U32, parent: U32, handle: U32, src: Key): Books {
    var objects := b.objects[Key(client, handle) := Object(parent, MemoryOf(b, src))];
    var memory := Recount(b.memory, objects);
    RecountShrinks(b.memory, objects);
    b.(objects := objects, memory := memory, inUse := SatSub(b.inUse, Total(b.memory) - Total(memory)))
  }

  ghost function AfterFreed(b: Books, client: U32, handle: U32): Books {
    Dropped(b, FreedKeys(b.objects, client, handle))
  }

  predicate Fits(b: Books, bytes: nat) {
    match b.limit
    case None => true
    case Some(l) => b.inUse + bytes <= U64_MAX && b.inUse + bytes <= l
  }

  function AfterAdmit(b: Books, bytes: nat): Books {
    if Fits(b, bytes) then b else b.(refused := b.refused + 1)
  }

  /** The list with every occurrence of `client` left out. */
  function Without(clients: seq<U32>, client: U32): seq<U32> {
    if clients == [] then []
    else if clients[0] == client then Without(clients[1..], client)
    else [clients[0]] + Without(clients[1..], client)
  }

  function AfterClientOpened(b: Books, file: nat, client: U32): Books {
    var v := ClientsOf(b, file);
    b.(files := b.files[file := if client in v then v else v + [client]])
  }

  ghost function AfterClientFreed(b: Books, client: U32): Books {
    var files := map f | f in b.files :: Without(b.files[f], client);
    AfterFreed(b.(files := files), client, client)
  }

  function ClientsOf(b: Books, file: nat): seq<U32> {
    if file in b.files then b.files[file] else []
  }

  ghost function OfClients(objects: map<Key, Object>, clients: seq<U32>): set<Key> {
    set k | k in objects && k.client in clients
  }

  ghost function AfterFileClosed(b: Books, file: nat): Books {
    Dropped(b.(files := b.files - {file}), OfClients(b.objects, ClientsOf(b, file)))
  }

  /** The record of a handle names this parent. */
  predicate RecordedUnder(objects: map<Key, Object>, k: Key, parent: U32) {
    k in objects && objects[k].parent == parent
  }

  predicate NamesMemory(objects: map<Key, Object>, k: Key) {
    k in objects && objects[k].memory.Some?
  }

  // ---------------------------------------------------------------------
  // Totals

  lemma TotalInsert(m: map<nat, Memory>, id: nat, v: Memory)
    requires id !in m
    ensures Total(m[id := v]) == Total(m) + v.bytes
  {
    SumRemove(m[id := v], BytesOf, id);
    assert m[id := v] - {id} == m;
  }

  lemma RecountShrinks(memory: map<nat, Memory>, objects: map<Key, Object>)
    ensures Total(Recount(memory, objects)) <= Total(memory)
  {
    SumShrinks(Recount(memory, objects), memory, BytesOf);
  }

  lemma RecountTwice(memory: map<nat, Memory>, objects: map<Key, Object>)
    ensures Recount(Recount(memory, objects), objects) == Recount(memory, objects)
  {
  }

  // ---------------------------------------------------------------------
  // Dropping objects

  /** One `drop_object`: the record goes, its memory loses a holder, and the last holder frees it. */
  function DropOne(b: Books, k: Key): Books
    requires k in b.objects && b.objects[k].memory.Some? && b.objects[k].memory.value in b.memory
             ==> b.memory[b.objects[k].memory.value].holders > 0
  {
    if k !in b.objects then b
    else
      var o := b.objects[k];
      var d := b.(objects := b.objects - {k});
      if o.memory.None? || o.memory.value !in b.memory then d
      else
        var id := o.memory.value;
        var m := b.memory[id];
        if m.holders == 1 then d.(memory := b.memory - {id}, inUse := SatSub(b.inUse, m.bytes))
        else d.(memory := b.memory[id := m.(holders := m.holders - 1)])
  }

  lemma HoldersPositive(b: Books, k: Key)
    requires Ok(b) && k in b.objects && b.objects[k].memory.Some?
    ensures b.objects[k].memory.value in b.memory
    ensures k in Holders(b.objects, b.objects[k].memory.value)
    ensures b.memory[b.objects[k].memory.value].holders == |Holders(b.objects, b.objects[k].memory.value)| > 0
  {
  }

  lemma DropOneIsDropped(b: Books, k: Key)
    requires Ok(b)
    requires k in b.objects && b.objects[k].memory.Some? && b.objects[k].memory.value in b.memory
             ==> b.memory[b.objects[k].memory.value].holders > 0
    ensures DropOne(b, k) == Dropped(b, {k})
  {
    if k !in b.objects || b.objects[k].memory.None? {
      NobodyDropped(b, k);
    } else {
      HolderDropped(b, k);
    }
  }

  lemma NobodyDropped(b: Books, k: Key)
    requires Ok(b) && (k in b.objects ==> b.objects[k].memory.None?)
    ensures DropOne(b, k) == Dropped(b, {k})
  {
    var objects := b.objects - {k};
    assert forall id: nat :: Holders(objects, id) == Holders(b.objects, id);
    assert Recount(b.memory, objects) == b.memory;
    assert k !in b.objects ==> objects == b.objects;
  }

  lemma HolderDropped(b: Books, k: Key)
    requires Ok(b) && k in b.objects && b.objects[k].memory.Some?
    requires b.objects[k].memory.value in b.memory && b.memory[b.objects[k].memory.value].holders > 0
    ensures DropOne(b, k) == Dropped(b, {k})
  {
    hide Holders, Recount;
    OneHolderFewer(b, k);
    var id := b.objects[k].memory.value;
    var left := Recount(b.memory, b.objects - {k});
    SumRemove(b.memory, BytesOf, id);
    if b.memory[id].holders > 1 { SumShrinks(left, b.memory, BytesOf); }
  }

  lemma OneHolderFewer(b: Books, k: Key)
    requires Ok(b) && k in b.objects && b.objects[k].memory.Some?
    requires b.objects[k].memory.value in b.memory
    ensures var id := b.objects[k].memory.value;
            var m := b.memory[id];
            Recount(b.memory, b.objects - {k}) ==
            if m.holders == 1 then b.memory - {id} else b.memory[id := Memory(m.bytes, m.holders - 1)]
  {
    hide Holders;
    var objects := b.objects - {k};
    var id := b.objects[k].memory.value;
    var m := b.memory[id];
    var want := if m.holders == 1 then b.memory - {id} else b.memory[id := Memory(m.bytes, m.holders - 1)];
    var got := Recount(b.memory, objects);
    HoldersPositive(b, k);
    forall other | other in b.memory
      ensures other in got <==> other in want
      ensures other in got ==> got[other] == want[other]
    {
      assert b.memory[other] == Recount(b.memory, b.objects)[other];
      HoldersWithout(b.objects, k, other);
    }
  }

  lemma HoldersWithout(objects: map<Key, Object>, k: Key, id: nat)
    requires k in objects
    ensures Holders(objects - {k}, id) ==
            if objects[k].memory == Some(id) then Holders(objects, id) - {k} else Holders(objects, id)
  {
  }

  lemma OkWhateverFiles(b: Books, files: map<nat, seq<U32>>)
    requires Ok(b)
    ensures Ok(b.(files := files))
  {
  }

  lemma DroppedOk(b: Books, keys: set<Key>)
    requires Ok(b)
    ensures Ok(Dropped(b, keys))
    ensures Exact(b) ==> Exact(Dropped(b, keys))
    ensures Dropped(b, keys).inUse <= b.inUse
  {
    var d := Dropped(b, keys);
    RecountShrinks(b.memory, d.objects);
    forall k | k in d.objects && d.objects[k].memory.Some? ensures d.objects[k].memory.value in d.memory {
      assert k in Holders(d.objects, d.objects[k].memory.value);
    }
    assert d.memory == Recount(d.memory, d.objects);
  }

  lemma DroppedTwice(b: Books, first: set<Key>, second: set<Key>)
    ensures Dropped(Dropped(b, first), second) == Dropped(b, first + second)
  {
    var d1 := Dropped(b, first);
    var d2 := Dropped(d1, second);
    assert d2.objects == b.objects - (first + second);
    forall id: nat ensures Holders(d2.objects, id) <= Holders(d1.objects, id) {}
    assert Recount(d1.memory, d2.objects) == Recount(b.memory, d2.objects) by {
      forall id | id in b.memory && Holders(d2.objects, id) != {} ensures id in d1.memory {
        assert Holders(d1.objects, id) != {};
      }
    }
    RecountShrinks(b.memory, d1.objects);
    RecountShrinks(d1.memory, d2.objects);
  }

  /** The objects of one more client, whether or not it was dropped before. */
  lemma OneClientMore(b: Books, clients: seq<U32>, i: nat)
    requires i < |clients|
    ensures var gone := OfClients(b.objects, clients[..i]);
            gone + FreedKeys(Dropped(b, gone).objects, clients[i], clients[i]) == OfClients(b.objects, clients[..i + 1])
  {
    hide Recount, Total;
    assert clients[..i + 1] == clients[..i] + [clients[i]];
  }

  lemma DroppedOnlyLive(b: Books, one: set<Key>, other: set<Key>)
    requires one * b.objects.Keys == other * b.objects.Keys
    ensures Dropped(b, one) == Dropped(b, other)
  {
    assert b.objects - one == b.objects - other by {
      forall k | k in b.objects ensures k in one <==> k in other {
        assert k in one * b.objects.Keys <==> k in other * b.objects.Keys;
      }
    }
  }

  lemma DroppedNothing(b: Books)
    requires Ok(b)
    ensures Dropped(b, {}) == b
  {
    assert b.objects - {} == b.objects;
  }

  function Held(b: Books, m: Option<nat>): Books
    requires m.Some? ==> m.value in b.memory
  {
    if m.None? then b
    else b.(memory := b.memory[m.value := Memory(b.memory[m.value].bytes, b.memory[m.value].holders + 1)])
  }

  lemma HeldIsSafe(b: Books, src: Key, k: Key)
    requires Ok(b)
    ensures var m := MemoryOf(b, src);
            && (m.Some? ==> m.value in b.memory)
            && (MemoryOf(b, k).Some? ==>
                  && MemoryOf(b, k).value in b.memory
                  && b.memory[MemoryOf(b, k).value].holders > 0
                  && Held(b, m).memory[MemoryOf(b, k).value].holders > 0)
  {
  }

  lemma HeldDropped(b: Books, m: Option<nat>, k: Key)
    requires m.Some? ==> m.value in b.memory
    requires MemoryOf(b, k).Some? ==>
               MemoryOf(b, k).value in b.memory && b.memory[MemoryOf(b, k).value].holders > 0
    ensures DropOne(Held(b, m), k).memory == Renamed(b.memory, MemoryOf(b, k), m)
    ensures DropOne(Held(b, m), k).objects == b.objects - {k}
    ensures DropOne(Held(b, m), k).inUse ==
            if MemoryOf(b, k).Some? && MemoryOf(b, k) != m && b.memory[MemoryOf(b, k).value].holders == 1
            then SatSub(b.inUse, b.memory[MemoryOf(b, k).value].bytes) else b.inUse
  {
  }

  lemma RenamedTotal(memory: map<nat, Memory>, was: Option<nat>, now: Option<nat>)
    requires was.Some? ==> was.value in memory && memory[was.value].holders > 0
    requires now.Some? ==> now.value in memory
    ensures Total(memory) - Total(Renamed(memory, was, now)) ==
            if was.Some? && was != now && memory[was.value].holders == 1 then memory[was.value].bytes else 0
  {
    var r := Renamed(memory, was, now);
    if was.Some? && was != now && memory[was.value].holders == 1 {
      SumRemove(memory, BytesOf, was.value);
      SumShrinks(r, memory - {was.value}, BytesOf);
    } else {
      SumShrinks(r, memory, BytesOf);
    }
  }

  /** Holding the source first, dropping the old record, then inserting is the duplicate,
      also when the old record was the source itself. */
  lemma HeldThenDropped(b: Books, client: U32, parent: U32, handle: U32, src: Key)
    requires Ok(b)
    requires var m := MemoryOf(b, src);
             && (m.Some? ==> m.value in b.memory)
             && (MemoryOf(b, Key(client, handle)).Some? ==>
                   && MemoryOf(b, Key(client, handle)).value in b.memory
                   && b.memory[MemoryOf(b, Key(client, handle)).value].holders > 0)
    ensures var m := MemoryOf(b, src);
            var d := DropOne(Held(b, m), Key(client, handle));
            d.(objects := d.objects[Key(client, handle) := Object(parent, m)])
            == AfterDuplicated(b, client, parent, handle, src)
  {
    hide Ok, Recount, Holders, Renamed, AfterDuplicated;
    var k := Key(client, handle);
    var m := MemoryOf(b, src);
    DuplicatedIs(b, client, parent, handle, src);
    HeldDropped(b, m, k);
    assert (b.objects - {k})[k := Object(parent, m)] == b.objects[k := Object(parent, m)];
  }

  lemma DuplicatedIs(b: Books, client: U32, parent: U32, handle: U32, src: Key)
    requires Ok(b)
    requires var m, was := MemoryOf(b, src), MemoryOf(b, Key(client, handle));
             && (m.Some? ==> m.value in b.memory)
             && (was.Some? ==> was.value in b.memory && b.memory[was.value].holders > 0)
    ensures var m, was := MemoryOf(b, src), MemoryOf(b, Key(client, handle));
            AfterDuplicated(b, client, parent, handle, src) ==
            b.(objects := b.objects[Key(client, handle) := Object(parent, m)],
               memory := Renamed(b.memory, was, m),
               inUse := if was.Some? && was != m && b.memory[was.value].holders == 1
                        then SatSub(b.inUse, b.memory[was.value].bytes) else b.inUse)
  {
    var k, m := Key(client, handle), MemoryOf(b, src);
    RecountRenamed(b, k, Object(parent, m));
    RenamedTotal(b.memory, MemoryOf(b, k), m);
  }

  /** One name moving from memory `was` to memory `now`. */
  function Renamed(memory: map<nat, Memory>, was: Option<nat>, now: Option<nat>): map<nat, Memory>
    requires was.Some? ==> was.value in memory && memory[was.value].holders > 0
    requires now.Some? ==> now.value in memory
  {
    if was == now then memory
    else
      var more := if now.None? then memory
                  else memory[now.value := Memory(memory[now.value].bytes, memory[now.value].holders + 1)];
      if was.None? then more
      else if memory[was.value].holders == 1 then more - {was.value}
      else more[was.value := Memory(memory[was.value].bytes, memory[was.value].holders - 1)]
  }

  lemma HoldersAfter(objects: map<Key, Object>, k: Key, o: Object, id: nat)
    ensures k in Holders(objects, id) <==> k in objects && objects[k].memory == Some(id)
    ensures Holders(objects[k := o], id) ==
            if o.memory == Some(id) then Holders(objects, id) + {k} else Holders(objects, id) - {k}
  {
  }

  lemma HoldersRenamed(objects: map<Key, Object>, k: Key, o: Object, id: nat)
    ensures var was := if k in objects then objects[k].memory else None;
            var after := Holders(objects[k := o], id);
            && (was == o.memory || (was != Some(id) && o.memory != Some(id)) ==> after == Holders(objects, id))
            && (was != o.memory && o.memory == Some(id) ==> |after| == |Holders(objects, id)| + 1)
            && (was != o.memory && was == Some(id) ==> |after| == |Holders(objects, id)| - 1)
  {
    hide Holders;
    HoldersAfter(objects, k, o, id);
    var holders := Holders(objects, id);
    assert k in holders ==> holders + {k} == holders;
    assert k !in holders ==> holders - {k} == holders;
  }

  lemma RecountRenamed(b: Books, k: Key, o: Object)
    requires Ok(b) && (o.memory.Some? ==> o.memory.value in b.memory)
    requires MemoryOf(b, k).Some? ==> MemoryOf(b, k).value in b.memory && b.memory[MemoryOf(b, k).value].holders > 0
    ensures Recount(b.memory, b.objects[k := o]) == Renamed(b.memory, MemoryOf(b, k), o.memory)
  {
    hide Holders, Total;
    var got := Recount(b.memory, b.objects[k := o]);
    var want := Renamed(b.memory, MemoryOf(b, k), o.memory);
    forall id | id in b.memory
      ensures id in got <==> id in want
      ensures id in got ==> got[id] == want[id]
    {
      assert b.memory[id] == Recount(b.memory, b.objects)[id];
      HoldersRenamed(b.objects, k, o, id);
    }
  }

  // ---------------------------------------------------------------------
  // Subtrees

  lemma ChildIsUnder(objects: map<Key, Object>, client: U32, root: U32, p: U32, h: U32)
    requires Under(objects, client, root, p)
    requires Key(client, h) in objects && objects[Key(client, h)].parent == p
    ensures Under(objects, client, root, h)
  {
    var path :| Descends(objects, client, path) && path[0] == root && path[|path| - 1] == p;
    var longer := path + [h];
    assert Descends(objects, client, longer) && longer[0] == root && longer[|longer| - 1] == h;
  }

  lemma RootIsUnder(objects: map<Key, Object>, client: U32, root: U32)
    ensures Under(objects, client, root, root)
  {
    assert Descends(objects, client, [root]) && [root][0] == root && [root][|[root]| - 1] == root;
  }

  /** A set that holds the root and every child of its members holds everything under the root. */
  lemma {:induction false} ClosedHoldsPath(objects: map<Key, Object>, client: U32, path: seq<U32>, s: set<U32>)
    requires Descends(objects, client, path) && path[0] in s
    requires forall h :: Key(client, h) in objects && objects[Key(client, h)].parent in s ==> h in s
    ensures path[|path| - 1] in s
  {
    if |path| > 1 {
      var up := path[..|path| - 1];
      ClosedHoldsPath(objects, client, up, s);
    }
  }

  lemma ClosedHoldsSubtree(objects: map<Key, Object>, client: U32, root: U32, s: set<U32>)
    requires root in s
    requires forall h :: Key(client, h) in objects && objects[Key(client, h)].parent in s ==> h in s
    ensures forall h :: Under(objects, client, root, h) ==> h in s
  {
    forall h | Under(objects, client, root, h) ensures h in s {
      var path :| Descends(objects, client, path) && path[0] == root && path[|path| - 1] == h;
      ClosedHoldsPath(objects, client, path, s);
    }
  }

  function KeysOf(client: U32, handles: seq<U32>): set<Key> {
    set i | 0 <= i < |handles| :: Key(client, handles[i])
  }

  lemma KeysOfAppend(client: U32, handles: seq<U32>, h: U32)
    ensures KeysOf(client, handles + [h]) == KeysOf(client, handles) + {Key(client, h)}
  {
    var more := handles + [h];
    assert forall i :: 0 <= i < |handles| ==> more[i] == handles[i];
    forall k | k in KeysOf(client, handles) + {Key(client, h)} ensures k in KeysOf(client, more) {
      if k == Key(client, h) {
        assert more[|handles|] == h;
      } else {
        var i :| 0 <= i < |handles| && k == Key(client, handles[i]);
        assert k == Key(client, more[i]);
      }
    }
  }

  lemma ListedIsFreed(b: Books, client: U32, handle: U32, doomed: seq<U32>)
    requires handle != client
    requires forall h :: h in doomed <==> Under(b.objects, client, handle, h)
    ensures Dropped(b, KeysOf(client, doomed)) == AfterFreed(b, client, handle)
  {
    var freed := FreedKeys(b.objects, client, handle);
    forall k | k in b.objects ensures k in KeysOf(client, doomed) <==> k in freed {
      if k.client == client && k.handle in doomed {
        var j :| 0 <= j < |doomed| && doomed[j] == k.handle;
        assert k == Key(client, doomed[j]);
      }
    }
    assert KeysOf(client, doomed) * b.objects.Keys == freed * b.objects.Keys;
    DroppedOnlyLive(b, KeysOf(client, doomed), freed);
  }

  // ---------------------------------------------------------------------
  // The class

  class Vram {
    var limit: Option<nat>
    var objects: map<Key, Object>
    var memory: map<nat, Memory>
    var nextMemory: nat
    var files: map<nat, seq<U32>>
    var inUse: nat
    var peak: nat
    var refused: nat

    ghost function Now(): Books
      reads this
    {
      Books(limit, objects, memory, nextMemory, files, inUse, peak, refused)
    }

    constructor (limitMib: Option<nat>)
      ensures Ok(Now()) && Exact(Now()) && objects == map[] && peak == 0
      ensures limit == match limitMib
                       case None => None
                       case Some(m) => Some(if m * 0x10_0000 <= U64_MAX then m * 0x10_0000 else U64_MAX)
    {
      limit := match limitMib
               case None => None
               case Some(m) => Some(if m * MIB <= U64_MAX then m * MIB else U64_MAX);
      objects, memory, nextMemory, files := map[], map[], 1, map[];
      inUse, peak, refused := 0, 0, 0;
    }

    method Admit(bytes: nat) returns (fits: bool)
      modifies this`refused
      ensures fits <==> limit.None? || (inUse + bytes <= U64_MAX && inUse + bytes <= limit.value)
      ensures fits == Fits(old(Now()), bytes)
      ensures refused == old(refused) + if fits then 0 else 1
      ensures Now() == AfterAdmit(old(Now()), bytes)
    {
      fits := match limit
              case None => true
              case Some(l) => inUse + bytes <= U64_MAX && inUse + bytes <= l;
      if !fits { refused := refused + 1; }
    }

    method DropObject(client: U32, handle: U32)
      requires var k := Key(client, handle);
               k in objects && objects[k].memory.Some? && objects[k].memory.value in memory
               ==> memory[objects[k].memory.value].holders > 0
      modifies this`objects, this`memory, this`inUse
      ensures Now() == DropOne(old(Now()), Key(client, handle))
      ensures old(Ok(Now())) ==> Ok(Now()) && Now() == Dropped(old(Now()), {Key(client, handle)})
    {
      var k := Key(client, handle);
      ghost var before := Now();
      if Ok(before) {
        DropOneIsDropped(before, k);
        DroppedOk(before, {k});
      }
      if k !in objects { return; }
      var o := objects[k];
      objects := objects - {k};
      if o.memory.None? { return; }
      var id := o.memory.value;
      if id !in memory { return; }
      var m := memory[id];
      memory := memory[id := m.(holders := m.holders - 1)];
      if memory[id].holders == 0 {
        inUse := SatSub(inUse, m.bytes);
        memory := memory - {id};
        assert memory == before.memory - {id};
      }
    }

    method Allocated(client: U32, parent: U32, handle: U32, bytes: Option<nat>)
      requires Ok(Now())
      modifies this
      ensures Ok(Now())
      ensures Now() == AfterAllocated(old(Now()), client, parent, handle, bytes)
      ensures RecordedUnder(objects, Key(client, handle), parent) && (NamesMemory(objects, Key(client, handle)) <==> bytes.Some?)
      ensures bytes.Some? ==> var id := objects[Key(client, handle)].memory.value;
                              id in memory && memory[id].bytes == bytes.value && memory[id].holders == 1
    {
      hide Ok, Recount, Holders, Dropped, DropOne, Exact, Total, SatAdd;
      ghost var before := Now();
      AllocatedOk(before, client, parent, handle, bytes);
      if Key(client, handle) in objects && objects[Key(client, handle)].memory.Some? {
        HoldersPositive(Now(), Key(client, handle));
      }
      DropObject(client, handle);
      var named: Option<nat> := None;
      if bytes.Some? {
        var id := nextMemory;
        nextMemory := nextMemory + 1;
        memory := memory[id := Memory(bytes.value, 1)];
        inUse := SatAdd(inUse, bytes.value);
        peak := if inUse > peak then inUse else peak;
        named := Some(id);
      }
      objects := objects[Key(client, handle) := Object(parent, named)];
    }

    method Duplicated(client: U32, parent: U32, handle: U32, srcClient: U32, srcHandle: U32)
      requires Ok(Now())
      modifies this
      ensures Ok(Now())
      ensures Now() == AfterDuplicated(old(Now()), client, parent, handle, Key(srcClient, srcHandle))
      ensures RecordedUnder(objects, Key(client, handle), parent)
      ensures var src := Key(srcClient, srcHandle);
              objects[Key(client, handle)].memory == if src in old(objects) then old(objects)[src].memory else None
    {
      hide Ok, Recount, Holders, AfterDuplicated, DropOne;
      ghost var before := Now();
      var src := Key(srcClient, srcHandle);
      HeldIsSafe(before, src, Key(client, handle));
      HeldThenDropped(before, client, parent, handle, src);
      DuplicatedOk(before, client, parent, handle, src);
      var named := if src in objects then objects[src].memory else None;
      if named.Some? && named.value in memory {
        var m := memory[named.value];
        memory := memory[named.value := m.(holders := m.holders + 1)];
      }
      assert Now() == Held(before, named);
      DropObject(client, handle);
      objects := objects[Key(client, handle) := Object(parent, named)];
    }

    /** Drops the listed handles in turn; a handle listed twice is dropped once. */
    method DropAll(client: U32, doomed: seq<U32>)
      requires Ok(Now())
      modifies this`objects, this`memory, this`inUse
      ensures Ok(Now())
      ensures Now() == Dropped(old(Now()), KeysOf(client, doomed))
    {
      hide Recount, Dropped, Ok, Holders;
      ghost var before := Now();
      DroppedNothing(before);
      assert KeysOf(client, doomed[..0]) == {};
      for i := 0 to |doomed|
        invariant Ok(Now())
        invariant Now() == Dropped(before, KeysOf(client, doomed[..i]))
      {
        if Key(client, doomed[i]) in objects && objects[Key(client, doomed[i])].memory.Some? {
          HoldersPositive(Now(), Key(client, doomed[i]));
        }
        DropObject(client, doomed[i]);
        DroppedTwice(before, KeysOf(client, doomed[..i]), {Key(client, doomed[i])});
        KeysOfAppend(client, doomed[..i], doomed[i]);
        assert doomed[..i + 1] == doomed[..i] + [doomed[i]];
      }
      assert doomed[..|doomed|] == doomed;
    }

    /** The recorded children of every handle of `client`, in whatever order the records come. */
    method Children(client: U32) returns (children: map<U32, seq<U32>>)
      ensures forall p, h :: (p in children && h in children[p]) <==>
                             (Key(client, h) in objects && objects[Key(client, h)].parent == p && h != p)
    {
      children := map[];
      var rest := objects.Keys;
      while rest != {}
        invariant rest <= objects.Keys
        invariant forall p, h :: (p in children && h in children[p]) <==>
                                 (Key(client, h) in objects.Keys - rest && objects[Key(client, h)].parent == p && h != p)
        decreases rest
      {
        var k :| k in rest;
        rest := rest - {k};
        var p := objects[k].parent;
        if k.client == client && k.handle != p {
          var kids := if p in children then children[p] else [];
          children := children[p := kids + [k.handle]];
        }
      }
    }

    /** Every handle of one client, in whatever order the records come. */
    method AllOf(client: U32) returns (all: seq<U32>)
      ensures KeysOf(client, all) == FreedKeys(objects, client, client)
    {
      all := [];
      var rest := objects.Keys;
      while rest != {}
        invariant rest <= objects.Keys
        invariant KeysOf(client, all) == set k | k in objects.Keys - rest && k.client == client
        decreases rest
      {
        var k :| k in rest;
        rest := rest - {k};
        if k.client == client {
          KeysOfAppend(client, all, k.handle);
          assert Key(client, k.handle) == k;
          all := all + [k.handle];
        }
      }
    }

    /** The worklist: a handle, its children, their children, each list of children taken once. */
    method Doomed(client: U32, handle: U32) returns (doomed: seq<U32>)
      ensures forall h :: h in doomed <==> Under(objects, client, handle, h)
    {
      hide Under, Descends;
      var children := Children(client);
      doomed := [handle];
      RootIsUnder(objects, client, handle);
      var i := 0;
      while i < |doomed|
        invariant i <= |doomed| && |doomed| > 0 && doomed[0] == handle
        invariant forall j :: 0 <= j < |doomed| ==> Under(objects, client, handle, doomed[j])
        invariant forall p, h :: p in children && h in children[p] ==>
                                 Key(client, h) in objects && objects[Key(client, h)].parent == p
        invariant Pending(client, children, doomed, i)
        decreases children.Keys, |doomed| - i
      {
        var d := doomed[i];
        ghost var had, known := children, doomed;
        assert d !in children ==> children - {d} == children && doomed + [] == doomed;
        if d in children {
          var kids := children[d];
          forall j | 0 <= j < |kids| ensures Under(objects, client, handle, kids[j]) {
            assert kids[j] in children[d];
            ChildIsUnder(objects, client, handle, d, kids[j]);
          }
          children := children - {d};
          doomed := doomed + kids;
        }
        PendingNext(client, had, known, i);
        i := i + 1;
      }
      assert doomed[..i] == doomed;
      ghost var taken := set h | h in doomed;
      assert doomed[0] in taken;
      ClosedHoldsSubtree(objects, client, handle, taken);
    }

    /** Children of handles already visited are on the list; the others' are still to be taken. */
    ghost predicate Pending(client: U32, children: map<U32, seq<U32>>, doomed: seq<U32>, i: nat)
      reads this
      requires i <= |doomed|
    {
      forall h :: Key(client, h) in objects && objects[Key(client, h)].parent != h ==>
        var p := objects[Key(client, h)].parent;
        if p in doomed[..i] then h in doomed else p in children && h in children[p]
    }

    /** Visiting one more handle takes its children onto the list. */
    lemma PendingNext(client: U32, children: map<U32, seq<U32>>, doomed: seq<U32>, i: nat)
      requires i < |doomed| && Pending(client, children, doomed, i)
      ensures var d := doomed[i];
              Pending(client, children - {d}, doomed + (if d in children then children[d] else []), i + 1)
    {
      var d := doomed[i];
      var left, more := children - {d}, doomed + if d in children then children[d] else [];
      forall h | Key(client, h) in objects && objects[Key(client, h)].parent != h
        ensures var p := objects[Key(client, h)].parent;
                if p in more[..i + 1] then h in more else p in left && h in left[p]
      {
        var p := objects[Key(client, h)].parent;
        assert more[..i + 1] == doomed[..i] + [d];
        assert p in more[..i + 1] <==> p in doomed[..i] || p == d;
      }
    }

    method Freed(client: U32, handle: U32)
      requires Ok(Now())
      modifies this`objects, this`memory, this`inUse
      ensures Ok(Now())
      ensures Now() == AfterFreed(old(Now()), client, handle)
    {
      ghost var before := Now();
      if handle == client {
        var all := AllOf(client);
        DropAll(client, all);
      } else {
        var doomed := Doomed(client, handle);
        DropAll(client, doomed);
        ListedIsFreed(before, client, handle, doomed);
      }
    }

    method ClientOpened(file: nat, client: U32)
      modifies this`files
      ensures Now() == AfterClientOpened(old(Now()), file, client)
      ensures Issued(file, client)
    {
      var v := if file in files then files[file] else [];
      if client !in v { v := v + [client]; }
      files := files[file := v];
    }

    function Issued(file: nat, client: U32): bool
      reads this
    {
      file in files && client in files[file]
    }

    method ClientFreed(client: U32)
      requires Ok(Now())
      modifies this`files, this`objects, this`memory, this`inUse
      ensures Ok(Now())
      ensures Now() == AfterClientFreed(old(Now()), client)
      ensures forall file :: !Issued(file, client)
    {
      ghost var before := files;
      var rest := files.Keys;
      while rest != {}
        invariant rest <= files.Keys == before.Keys
        invariant forall f :: f in files ==> files[f] == if f in rest then before[f] else Without(before[f], client)
        decreases rest
        modifies this`files
      {
        var f :| f in rest;
        rest := rest - {f};
        files := files[f := Without(files[f], client)];
      }
      assert files == map f | f in before :: Without(before[f], client);
      forall f | f in files ensures client !in files[f] {
        WithoutLeavesRest(before[f], client);
      }
      assert Now() == old(Now()).(files := files);
      Freed(client, client);
    }

    method FileClosed(file: nat)
      requires Ok(Now())
      modifies this`files, this`objects, this`memory, this`inUse
      ensures Ok(Now())
      ensures Now() == AfterFileClosed(old(Now()), file)
    {
      hide Ok, Recount, FreedKeys, Dropped, Issued;
      var clients := if file in files then files[file] else [];
      OkWhateverFiles(Now(), files - {file});
      files := files - {file};
      ghost var before := Now();
      DroppedNothing(before);
      assert OfClients(before.objects, clients[..0]) == {} by {
        assert clients[..0] == [];
      }
      for i := 0 to |clients|
        invariant Ok(Now())
        invariant Now() == Dropped(before, OfClients(before.objects, clients[..i]))
      {
        ghost var gone := OfClients(before.objects, clients[..i]);
        OneClientMore(before, clients, i);
        DroppedTwice(before, gone, FreedKeys(objects, clients[i], clients[i]));
        Freed(clients[i], clients[i]);
      }
      assert clients[..|clients|] == clients;
    }
  }

  // ---------------------------------------------------------------------
  // What every step keeps

  lemma {:induction false} WithoutLeavesRest(clients: seq<U32>, client: U32)
    ensures forall c :: c in Without(clients, client) <==> c in clients && c != client
  {
    if clients != [] {
      WithoutLeavesRest(clients[1..], client);
      assert clients == [clients[0]] + clients[1..];
    }
  }

  /** A charge keeps the books. The total stays exact exactly while it fits 64 bits. */
  lemma AllocatedOk(b: Books, client: U32, parent: U32, handle: U32, bytes: Option<nat>)
    requires Ok(b)
    ensures var a := AfterAllocated(b, client, parent, handle, bytes);
            && Ok(a)
            && (Exact(b) ==> (Exact(a) <==> bytes.None? || Total(a.memory) <= U64_MAX))
  {
    var d := Dropped(b, {Key(client, handle)});
    DroppedOk(b, {Key(client, handle)});
    var o := Object(parent, if bytes.Some? then Some(d.nextMemory) else None);
    NewNameOk(d, AfterAllocated(b, client, parent, handle, bytes), Key(client, handle), o);
    if bytes.Some? {
      TotalInsert(d.memory, d.nextMemory, Memory(bytes.value, 1));
    }
  }

  ghost predicate Counted(b: Books, id: nat)
    requires id in b.memory
  {
    Holders(b.objects, id) != {} && b.memory[id].holders == |Holders(b.objects, id)|
  }

  /** Books whose every memory has its right count are in order. */
  lemma CountedIsOk(b: Books)
    requires forall id :: id in b.memory ==> Counted(b, id)
    requires forall k :: k in b.objects && b.objects[k].memory.Some? ==> b.objects[k].memory.value in b.memory
    requires forall id :: id in b.memory ==> id < b.nextMemory
    ensures Ok(b)
  {
  }

  lemma OkIsCounted(b: Books, id: nat)
    requires Ok(b) && id in b.memory
    ensures Counted(b, id)
  {
  }

  /** A new record that names nothing, or a memory no other names. */
  lemma NewNameOk(d: Books, a: Books, k: Key, o: Object)
    requires Ok(d) && k !in d.objects && a.objects == d.objects[k := o]
    requires if o.memory.None? then a.memory == d.memory && a.nextMemory == d.nextMemory
             else && o.memory.value == d.nextMemory < a.nextMemory
                  && a.memory.Keys == d.memory.Keys + {d.nextMemory}
                  && a.memory[d.nextMemory].holders == 1
                  && forall id :: id in d.memory ==> a.memory[id] == d.memory[id]
    ensures Ok(a)
  {
    forall id | id in a.memory ensures Counted(a, id) {
      if id in d.memory {
        OkIsCounted(d, id);
        assert Holders(a.objects, id) == Holders(d.objects, id);
      } else {
        assert Holders(a.objects, id) == {k};
      }
    }
    CountedIsOk(a);
  }

  /** A duplicate keeps the books, charges nothing, and its memory stays. */
  lemma DuplicatedOk(b: Books, client: U32, parent: U32, handle: U32, src: Key)
    requires Ok(b)
    ensures var a := AfterDuplicated(b, client, parent, handle, src);
            && Ok(a)
            && (Exact(b) ==> Exact(a))
            && a.inUse <= b.inUse
            && (MemoryOf(b, src).Some? ==> MemoryOf(b, src).value in a.memory)
  {
    hide Renamed, Total;
    var a := AfterDuplicated(b, client, parent, handle, src);
    var k := Key(client, handle);
    HeldIsSafe(b, src, k);
    RecountRenamed(b, k, Object(parent, MemoryOf(b, src)));
    RenamedTotal(b.memory, MemoryOf(b, k), MemoryOf(b, src));
    forall key | key in a.objects && a.objects[key].memory.Some? ensures a.objects[key].memory.value in a.memory {
      assert key in Holders(a.objects, a.objects[key].memory.value);
    }
    if MemoryOf(b, src).Some? {
      assert k in Holders(a.objects, MemoryOf(b, src).value);
    }
    RecountTwice(b.memory, a.objects);
  }

  // ---------------------------------------------------------------------
  // Runs

  /** What is done to the books. A charge asks first, and is charged what RM took only if it was
      admitted; making an object asks nobody, whether it takes memory or not. */
  datatype Op =
    | Charge(client: U32, parent: U32, handle: U32, asked: nat, taken: nat)
    | Make(client: U32, parent: U32, handle: U32, bytes: Option<nat>)
    | Open(file: nat, client: U32)
    | Duplicate(client: U32, parent: U32, handle: U32, src: Key)
    | Free(client: U32, handle: U32)
    | FreeClient(client: U32)
    | CloseFile(file: nat)

  ghost function Step(b: Books, op: Op): Books {
    match op
    case Charge(c, p, h, asked, taken) =>
      if Fits(b, asked) then AfterAllocated(AfterAdmit(b, asked), c, p, h, Some(taken)) else AfterAdmit(b, asked)
    case Make(c, p, h, bytes) => AfterAllocated(b, c, p, h, bytes)
    case Open(f, c) => AfterClientOpened(b, f, c)
    case Duplicate(c, p, h, src) => AfterDuplicated(b, c, p, h, src)
    case Free(c, h) => AfterFreed(b, c, h)
    case FreeClient(c) => AfterClientFreed(b, c)
    case CloseFile(f) => AfterFileClosed(b, f)
  }

  ghost function Run(b: Books, ops: seq<Op>): Books {
    if ops == [] then b else Step(Run(b, ops[..|ops| - 1]), ops[|ops| - 1])
  }

  lemma StepKeepsOk(b: Books, op: Op)
    requires Ok(b)
    ensures Ok(Step(b, op))
    ensures Step(b, op).limit == b.limit
    ensures Exact(b) && Total(Step(b, op).memory) <= U64_MAX ==> Exact(Step(b, op))
  {
    match op
    case Charge(c, p, h, asked, taken) => AllocatedOk(AfterAdmit(b, asked), c, p, h, Some(taken));
    case Make(c, p, h, bytes) => AllocatedOk(b, c, p, h, bytes);
    case Open(_, _) =>
    case Duplicate(c, p, h, src) => DuplicatedOk(b, c, p, h, src);
    case Free(c, h) => DroppedOk(b, FreedKeys(b.objects, c, h));
    case FreeClient(c) =>
      var r := b.(files := map f | f in b.files :: Without(b.files[f], c));
      DroppedOk(r, FreedKeys(r.objects, c, c));
    case CloseFile(f) =>
      DroppedOk(b.(files := b.files - {f}), OfClients(b.objects, ClientsOf(b, f)));
  }

  /** Over every run, holder counts are the live names of each memory; and while the bytes
      present fit 64 bits throughout, the running total is exactly those bytes. */
  lemma {:induction false} RunKeepsBooks(b: Books, ops: seq<Op>)
    requires Ok(b) && Exact(b)
    ensures Ok(Run(b, ops)) && Run(b, ops).limit == b.limit
    ensures (forall n :: 0 <= n <= |ops| ==> Total(Run(b, ops[..n]).memory) <= U64_MAX) ==> Exact(Run(b, ops))
  {
    hide Ok, Exact, Step, Total;
    if ops != [] {
      var before := ops[..|ops| - 1];
      RunKeepsBooks(b, before);
      StepKeepsOk(Run(b, before), ops[|ops| - 1]);
      if forall n :: 0 <= n <= |ops| ==> Total(Run(b, ops[..n]).memory) <= U64_MAX {
        forall n | 0 <= n <= |before| ensures Total(Run(b, before[..n]).memory) <= U64_MAX {
          assert before[..n] == ops[..n];
        }
        assert ops[..|ops|] == ops;
      }
    }
  }

  // ---------------------------------------------------------------------
  // What a free takes, told from the operations alone

  /** The parent an operation gives to the record of `k`, if it makes one. */
  function GivenParent(b: Books, op: Op, k: Key): Option<U32> {
    match op
    case Charge(c, p, h, asked, _) =>
      if k == Key(c, h) && (b.limit.None? || (b.inUse + asked <= U64_MAX && b.inUse + asked <= b.limit.value)) then Some(p)
      else None
    case Make(c, p, h, _) => if k == Key(c, h) then Some(p) else None
    case Duplicate(c, p, h, _) => if k == Key(c, h) then Some(p) else None
    case _ => None
  }

  /** The parent that was given last. */
  ghost function LastParent(b: Books, ops: seq<Op>, k: Key): Option<U32> {
    if ops == [] then (if k in b.objects then Some(b.objects[k].parent) else None)
    else
      var before := ops[..|ops| - 1];
      var given := GivenParent(Run(b, before), ops[|ops| - 1], k);
      if given.Some? then given else LastParent(b, before, k)
  }

  /** An operation records what it makes under the parent it was given, and leaves the parents of all others. */
  lemma StepRecords(b: Books, op: Op, k: Key)
    ensures var a, given := Step(b, op), GivenParent(b, op, k);
            && (given.Some? ==> RecordedUnder(a.objects, k, given.value))
            && (given.None? && k in a.objects ==> k in b.objects && a.objects[k].parent == b.objects[k].parent)
  {
    hide Recount, Total, FreedKeys;
  }

  /** So over any run a live record's parent is the one its handle was last made under. */
  lemma {:induction false} RunRecords(b: Books, ops: seq<Op>, k: Key)
    ensures k in Run(b, ops).objects ==> LastParent(b, ops, k) == Some(Run(b, ops).objects[k].parent)
  {
    if ops != [] {
      hide Step, GivenParent;
      RunRecords(b, ops[..|ops| - 1], k);
      StepRecords(Run(b, ops[..|ops| - 1]), ops[|ops| - 1], k);
    }
  }

  /** Live handles of a client, each last made under the one before it. */
  ghost predicate MadeBelow(b: Books, ops: seq<Op>, client: U32, path: seq<U32>) {
    && |path| > 0
    && forall i :: 0 < i < |path| ==>
         Key(client, path[i]) in Run(b, ops).objects && LastParent(b, ops, Key(client, path[i])) == Some(path[i - 1])
  }

  /** After any run, freeing a handle takes exactly what is live and was made under it, at any depth, in
      its own client; the client's own handle takes all of the client. */
  lemma FreeTakesExactly(b: Books, ops: seq<Op>, client: U32, handle: U32, k: Key)
    requires k in Run(b, ops).objects
    ensures k !in Step(Run(b, ops), Free(client, handle)).objects <==>
              && k.client == client
              && (handle == client
                  || exists path :: MadeBelow(b, ops, client, path) && path[0] == handle && path[|path| - 1] == k.handle)
  {
    hide Recount, Total, Run;
    var objects := Run(b, ops).objects;
    forall path ensures MadeBelow(b, ops, client, path) <==> Descends(objects, client, path) {
      forall i | 0 < i < |path| && Key(client, path[i]) in objects
        ensures LastParent(b, ops, Key(client, path[i])) == Some(objects[Key(client, path[i])].parent)
      {
        RunRecords(b, ops, Key(client, path[i]));
      }
    }
    assert Key(k.client, k.handle) == k;
    assert Under(objects, client, handle, k.handle) <==>
           exists path :: MadeBelow(b, ops, client, path) && path[0] == handle && path[|path| - 1] == k.handle;
  }

  /** A client has been opened on a file, and since then neither freed nor the file closed. */
  ghost function StillOpen(b: Books, ops: seq<Op>, file: nat, client: U32): bool {
    if ops == [] then client in ClientsOf(b, file)
    else
      var before := StillOpen(b, ops[..|ops| - 1], file, client);
      match ops[|ops| - 1]
      case Open(f, c) => before || (f == file && c == client)
      case FreeClient(c) => before && c != client
      case CloseFile(f) => before && f != file
      case _ => before
  }

  lemma StepOpens(b: Books, op: Op, file: nat, client: U32)
    ensures var was, now := client in ClientsOf(b, file), client in ClientsOf(Step(b, op), file);
            match op
            case Open(f, c) => now <==> was || (f == file && c == client)
            case FreeClient(c) => now <==> was && c != client
            case CloseFile(f) => now <==> was && f != file
            case _ => now <==> was
  {
    hide Recount, Total, FreedKeys, OfClients;
    if op.FreeClient? && file in b.files { WithoutLeavesRest(b.files[file], op.client); }
  }

  lemma {:induction false} RunOpens(b: Books, ops: seq<Op>, file: nat, client: U32)
    ensures client in ClientsOf(Run(b, ops), file) <==> StillOpen(b, ops, file, client)
  {
    if ops != [] {
      hide Step, ClientsOf;
      RunOpens(b, ops[..|ops| - 1], file, client);
      StepOpens(Run(b, ops[..|ops| - 1]), ops[|ops| - 1], file, client);
    }
  }

  /** After any run, closing a file takes exactly the objects of the clients still open on it. */
  lemma CloseTakesExactly(b: Books, ops: seq<Op>, file: nat, k: Key)
    requires k in Run(b, ops).objects
    ensures k !in Step(Run(b, ops), CloseFile(file)).objects <==> StillOpen(b, ops, file, k.client)
  {
    hide Recount, Total, Run;
    RunOpens(b, ops, file, k.client);
  }

  /** What a free takes out of use: the bytes of each memory that no record names any more, and no others. */
  lemma FreeTakesBytes(b: Books, client: U32, handle: U32)
    requires Ok(b) && Exact(b)
    ensures var a := Step(b, Free(client, handle));
            && (forall id :: id in b.memory ==> (id in a.memory <==> exists k :: k in a.objects && a.objects[k].memory == Some(id)))
            && b.inUse == a.inUse + Total(b.memory - a.memory.Keys)
  {
    var keys := FreedKeys(b.objects, client, handle);
    DroppedOk(b, keys);
    DroppedBytes(b, keys);
  }

  lemma DroppedBytes(b: Books, keys: set<Key>)
    ensures var a := Dropped(b, keys);
            && (forall id :: id in b.memory ==> (id in a.memory <==> exists k :: k in a.objects && a.objects[k].memory == Some(id)))
            && Total(b.memory) == Total(a.memory) + Total(b.memory - a.memory.Keys)
  {
    hide Recount;
    var objects := b.objects - keys;
    var left := Recount(b.memory, objects);
    forall id | id in b.memory
      ensures id in left <==> exists k :: k in objects && objects[k].memory == Some(id)
    {
      StillNamed(b.memory, objects, id);
    }
    RecountSplits(b.memory, objects);
  }

  lemma RecountSplits(memory: map<nat, Memory>, objects: map<Key, Object>)
    ensures var left := Recount(memory, objects);
            Total(memory) == Total(left) + Total(memory - left.Keys)
  {
    hide Holders;
    var left := Recount(memory, objects);
    SumSplit(memory, left.Keys, BytesOf);
    SumShrinks(left, memory - (memory.Keys - left.Keys), BytesOf);
  }

  lemma StillNamed(memory: map<nat, Memory>, objects: map<Key, Object>, id: nat)
    requires id in memory
    ensures id in Recount(memory, objects) <==> exists k :: k in objects && objects[k].memory == Some(id)
  {
    if k :| k in objects && objects[k].memory == Some(id) { assert k in Holders(objects, id); }
    if Holders(objects, id) != {} {
      var k :| k in Holders(objects, id);
    }
  }

  /** What is in use after the first `n` operations. */
  ghost function UseAfter(b: Books, ops: seq<Op>, n: nat): nat
    requires n <= |ops|
  {
    Run(b, ops[..n]).inUse
  }

  lemma UseOfPrefix(b: Books, ops: seq<Op>, last: nat, n: nat)
    requires n <= last <= |ops|
    ensures UseAfter(b, ops[..last], n) == UseAfter(b, ops, n)
  {
    assert ops[..last][..n] == ops[..n];
  }

  /** Over any run the peak is the most that was ever in use. */
  lemma {:induction false} PeakIsHighest(b: Books, ops: seq<Op>)
    requires Ok(b) && b.inUse <= b.peak
    ensures forall n :: 0 <= n <= |ops| ==> UseAfter(b, ops, n) <= Run(b, ops).peak
    ensures Run(b, ops).peak == b.peak || exists n :: 0 <= n <= |ops| && UseAfter(b, ops, n) == Run(b, ops).peak
  {
    hide Step, Ok, UseAfter;
    UseAtEnd(b, ops);
    if ops != [] {
      var last := |ops| - 1;
      var before := ops[..last];
      PeakIsHighest(b, before);
      RunIsOk(b, before);
      UseAtEnd(b, before);
      StepPeaks(Run(b, before), ops[last]);
      forall n | 0 <= n <= last ensures UseAfter(b, ops, n) == UseAfter(b, before, n) {
        UseOfPrefix(b, ops, last, n);
      }
    }
  }

  lemma UseAtEnd(b: Books, ops: seq<Op>)
    ensures UseAfter(b, ops, |ops|) == Run(b, ops).inUse
  {
    assert ops[..|ops|] == ops;
  }

  lemma {:induction false} RunIsOk(b: Books, ops: seq<Op>)
    requires Ok(b)
    ensures Ok(Run(b, ops))
  {
    if ops != [] {
      RunIsOk(b, ops[..|ops| - 1]);
      StepKeepsOk(Run(b, ops[..|ops| - 1]), ops[|ops| - 1]);
    }
  }

  lemma StepPeaks(b: Books, op: Op)
    requires Ok(b) && b.inUse <= b.peak
    ensures var a := Step(b, op); a.peak == if a.inUse > b.peak then a.inUse else b.peak
  {
    match op
    case Charge(c, p, h, asked, taken) => DroppedOk(AfterAdmit(b, asked), {Key(c, h)});
    case Make(c, p, h, _) => DroppedOk(b, {Key(c, h)});
    case Open(_, _) =>
    case Duplicate(c, p, h, src) => DuplicatedOk(b, c, p, h, src);
    case Free(c, h) => DroppedOk(b, FreedKeys(b.objects, c, h));
    case FreeClient(c) =>
      var r := b.(files := map f | f in b.files :: Without(b.files[f], c));
      DroppedOk(r, FreedKeys(r.objects, c, c));
    case CloseFile(f) =>
      DroppedOk(b.(files := b.files - {f}), OfClients(b.objects, ClientsOf(b, f)));
  }

  /** RM never rounds an allocation up by more than `slack`. */
  ghost predicate RoundsBy(ops: seq<Op>, slack: nat) {
    forall i :: 0 <= i < |ops| && ops[i].Charge? ==> ops[i].taken <= ops[i].asked + slack
  }

  /** The books are in order and exact, and neither use nor peak is past the limit by more than `slack`. */
  ghost predicate Within(b: Books, slack: nat) {
    && Ok(b) && Exact(b) && b.limit.Some?
    && b.inUse <= b.limit.value + slack && b.peak <= b.limit.value + slack <= U64_MAX
  }

  /** Memory is taken only by charges that asked. */
  ghost predicate AllAsk(ops: seq<Op>) {
    forall i :: 0 <= i < |ops| && ops[i].Make? ==> ops[i].bytes.None?
  }

  /** The limit is passed by at most one allocation's rounding, over any run: roundings do
      not add up, whatever is duplicated, freed or reused in between. */
  lemma {:induction false} LimitHolds(b: Books, ops: seq<Op>, slack: nat)
    requires Within(b, slack) && RoundsBy(ops, slack) && AllAsk(ops)
    ensures Run(b, ops).limit == b.limit
    ensures Within(Run(b, ops), slack)
  {
    if ops != [] {
      var before, op := ops[..|ops| - 1], ops[|ops| - 1];
      LimitHolds(b, before, slack);
      StepKeepsOk(Run(b, before), op);
      StepWithin(Run(b, before), op, slack);
    }
  }

  lemma StepWithin(b: Books, op: Op, slack: nat)
    requires Within(b, slack)
    requires op.Charge? ==> op.taken <= op.asked + slack
    requires op.Make? ==> op.bytes.None?
    ensures Within(Step(b, op), slack)
  {
    match op
    case Charge(c, p, h, asked, taken) => ChargeWithin(b, op, slack);
    case Make(c, p, h, _) =>
      AllocatedOk(b, c, p, h, None);
      DroppedOk(b, {Key(c, h)});
    case Open(_, _) =>
    case Duplicate(c, p, h, src) => DuplicatedOk(b, c, p, h, src);
    case Free(c, h) => DroppedOk(b, FreedKeys(b.objects, c, h));
    case FreeClient(c) =>
      var r := b.(files := map f | f in b.files :: Without(b.files[f], c));
      DroppedOk(r, FreedKeys(r.objects, c, c));
    case CloseFile(f) =>
      DroppedOk(b.(files := b.files - {f}), OfClients(b.objects, ClientsOf(b, f)));
  }

  lemma ChargeWithin(b: Books, op: Op, slack: nat)
    requires Within(b, slack) && op.Charge? && op.taken <= op.asked + slack
    ensures Within(Step(b, op), slack)
  {
    var asked := AfterAdmit(b, op.asked);
    var d := Dropped(asked, {Key(op.client, op.handle)});
    DroppedOk(asked, {Key(op.client, op.handle)});
    AllocatedOk(asked, op.client, op.parent, op.handle, Some(op.taken));
    if Fits(b, op.asked) {
      TotalInsert(d.memory, d.nextMemory, Memory(op.taken, 1));
    }
  }

  /** Nothing live holds nothing: once every object is gone so is every byte. */
  lemma NothingLiveNothingUsed(b: Books)
    requires Ok(b) && Exact(b) && b.objects == map[]
    ensures b.memory == map[] && b.inUse == 0
  {
  }

  /** A free takes nothing outside its client, and memory another client still names stays charged. */
  lemma FreeStaysInClient(b: Books, client: U32, handle: U32, k: Key)
    requires Ok(b) && k in b.objects && k.client != client
    ensures var a := AfterFreed(b, client, handle);
            && k in a.objects && a.objects[k] == b.objects[k]
            && (b.objects[k].memory.Some? ==>
                  && b.objects[k].memory.value in a.memory
                  && a.memory[b.objects[k].memory.value].bytes == b.memory[b.objects[k].memory.value].bytes)
  {
    var a := AfterFreed(b, client, handle);
    if b.objects[k].memory.Some? {
      HoldersPositive(b, k);
      assert k in Holders(a.objects, b.objects[k].memory.value);
    }
  }

  /** Charging past 64 bits loses track: the total saturates, and freeing then takes it too low. */
  lemma SaturationLosesTrack()
    ensures var b := Books(None, map[], map[], 1, map[], 0, 0, 0);
            var a := Run(b, [Charge(1, 1, 2, 0, U64_MAX), Charge(1, 1, 3, 0, 1)]);
            Ok(b) && Exact(b) && Ok(a) && !Exact(a)
  {
    var b := Books(None, map[], map[], 1, map[], 0, 0, 0);
    var op1 := Charge(1, 1, 2, 0, U64_MAX);
    var op2 := Charge(1, 1, 3, 0, 1);
    assert [op1, op2][..1] == [op1] && [op1][..0] == [];
    assert Run(b, [op1]) == Step(Run(b, []), op1);
    var one := Step(b, op1);
    var two := Step(one, op2);
    assert Run(b, [op1, op2]) == two;
    StepKeepsOk(b, op1);
    StepKeepsOk(one, op2);
    FreshCharge(b, 1, 1, 2, U64_MAX);
    FreshCharge(one, 1, 1, 3, 1);
  }

  /** A charge to a handle that is not live adds its bytes, as far as 64 bits go. */
  lemma FreshCharge(b: Books, client: U32, parent: U32, handle: U32, bytes: nat)
    requires Ok(b) && Key(client, handle) !in b.objects
    ensures var a := AfterAllocated(b, client, parent, handle, Some(bytes));
            && a.inUse == SatAdd(b.inUse, bytes)
            && Total(a.memory) == Total(b.memory) + bytes
            && a.objects == b.objects[Key(client, handle) := Object(parent, Some(b.nextMemory))]
  {
    DroppedOnlyLive(b, {Key(client, handle)}, {});
    DroppedNothing(b);
    TotalInsert(b.memory, b.nextMemory, Memory(bytes, 1));
  }
}
