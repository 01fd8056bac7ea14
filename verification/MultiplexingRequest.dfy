/**
  One underlying request shared by any number of callbacks: an entry of the
  map lives as long as somebody holds a handle on it, or it is being invoked.
*/
module MultiplexingRequests {
  import opened Wrappers

  /** A registered callback; it is blank once its handle is gone while the list cannot be changed. */
  datatype Node = Node(id: nat, present: bool)

  datatype Entry = Entry(callbacks: seq<Node>, inProgress: bool, requireCleanup: bool, handedOut: nat)

  /** The map, who holds a handle on what, and the number of the next registration. */
  datatype Registry<Key> = Registry(entries: map<Key, Entry>, handles: map<nat, Key>, nextId: nat)

  /** What a callback may do: register another one, under any key, or let a handle go. */
  datatype Action<Key> = Register(key: Key) | Release(id: nat)

  datatype Event<Key> = Called(id: nat) | Released(id: nat) | Registered(id: nat, key: Key)

  // ---- Operations ----

  /** The entry of a key, made when there is none. */
  function EntryOf<Key>(entries: map<Key, Entry>, key: Key): Entry {
    if key in entries then entries[key] else Entry([], false, false, 0)
  }

  function WithCallback(entry: Entry, id: nat): Entry {
    entry.(callbacks := entry.callbacks + [Node(id, true)],
           handedOut := entry.handedOut + if entry.callbacks == [] then 1 else 0)
  }

  function Created<Key>(r: Registry<Key>, key: Key): (Registry<Key>, bool) {
    var mx := EntryOf(r.entries, key);
    (Registry(r.entries[key := WithCallback(mx, r.nextId)], r.handles[r.nextId := key], r.nextId + 1), mx.callbacks == [])
  }

  function DestroyIfEmpty<Key>(entries: map<Key, Entry>, key: Key, entry: Entry): map<Key, Entry> {
    if entry.callbacks == [] then entries - {key} else entries[key := entry]
  }

  function Position(callbacks: seq<Node>, id: nat): (i: nat)
    ensures i <= |callbacks|
    ensures i < |callbacks| ==> callbacks[i].id == id
    ensures forall j :: 0 <= j < i ==> callbacks[j].id != id
  {
    if callbacks == [] || callbacks[0].id == id then 0 else 1 + Position(callbacks[1..], id)
  }

  function Erased(callbacks: seq<Node>, i: nat): seq<Node>
    requires i < |callbacks|
  {
    callbacks[..i] + callbacks[i + 1..]
  }

  function DestroyInner<Key>(r: Registry<Key>, id: nat): Registry<Key> {
    if id !in r.handles || r.handles[id] !in r.entries then r else
    var key := r.handles[id];
    var entry := r.entries[key];
    var i := Position(entry.callbacks, id);
    if i == |entry.callbacks| then r else
    var entries :=
      if entry.inProgress then
        r.entries[key := entry.(callbacks := entry.callbacks[i := Node(id, false)], requireCleanup := true)]
      else
        DestroyIfEmpty(r.entries, key, entry.(callbacks := Erased(entry.callbacks, i)));
    Registry(entries, r.handles - {id}, r.nextId)
  }

  function EnterInvocation<Key>(r: Registry<Key>, key: Key): Registry<Key>
    requires key in r.entries
  {
    r.(entries := r.entries[key := r.entries[key].(inProgress := true)])
  }

  function NotBlank(callbacks: seq<Node>): seq<Node> {
    if callbacks == [] then [] else
    (if callbacks[0].present then [callbacks[0]] else []) + NotBlank(callbacks[1..])
  }

  function ExitInvocation<Key>(r: Registry<Key>, key: Key): Registry<Key>
    requires key in r.entries
  {
    var entry := r.entries[key];
    var kept := if entry.requireCleanup then NotBlank(entry.callbacks) else entry.callbacks;
    r.(entries := DestroyIfEmpty(r.entries, key, entry.(callbacks := kept, requireCleanup := false, inProgress := false)))
  }

  /** A handle that is not held cannot be let go. */
  function Perform<Key>(r: Registry<Key>, a: Action<Key>): (Registry<Key>, seq<Event<Key>>) {
    match a
    case Register(key) => (Created(r, key).0, [Registered(r.nextId, key)])
    case Release(id) => if id in r.handles then (DestroyInner(r, id), [Released(id)]) else (r, [])
  }

  function PerformAll<Key>(r: Registry<Key>, actions: seq<Action<Key>>): (Registry<Key>, seq<Event<Key>>)
    decreases |actions|
  {
    if actions == [] then (r, []) else
    var (next, events) := Perform(r, actions[0]);
    var (last, more) := PerformAll(next, actions[1..]);
    (last, events + more)
  }

  /** The first of the scripts is what the next callback called does; callbacks after the last script do nothing. */
  function First<T>(scripts: seq<seq<T>>): seq<T> {
    if scripts == [] then [] else scripts[0]
  }

  function After<T>(scripts: seq<seq<T>>): seq<seq<T>> {
    if scripts == [] then [] else scripts[1..]
  }

  function CallFrom<Key>(r: Registry<Key>, key: Key, i: nat, scripts: seq<seq<Action<Key>>>)
    : (Registry<Key>, seq<Event<Key>>)
    decreases |scripts|, if key in r.entries then AtLeastZero(|r.entries[key].callbacks| - i) else 0
  {
    if key !in r.entries || i >= |r.entries[key].callbacks| then (r, []) else
    var node := r.entries[key].callbacks[i];
    if !node.present then CallFrom(r, key, i + 1, scripts) else
    var (next, events) := PerformAll(r, First(scripts));
    var (last, more) := CallFrom(next, key, i + 1, After(scripts));
    (last, [Called(node.id)] + events + more)
  }

  function AtLeastZero(n: int): nat {
    if n < 0 then 0 else n
  }

  // ---- What always holds ----

  /** Callbacks are listed once, in the order they were registered; those not blank are held, and under this key. */
  ghost predicate Sound<Key>(callbacks: seq<Node>, key: Key, handles: map<nat, Key>, nextId: nat) {
    && (forall i :: 0 <= i < |callbacks| ==> callbacks[i].id < nextId)
    && (forall i, j :: 0 <= i < j < |callbacks| ==> callbacks[i].id < callbacks[j].id)
    && (forall i :: 0 <= i < |callbacks| ==> (callbacks[i].present <==> callbacks[i].id in handles))
    && (forall i :: 0 <= i < |callbacks| && callbacks[i].present ==> handles[callbacks[i].id] == key)
  }

  ghost predicate Listed(callbacks: seq<Node>, id: nat) {
    exists i :: 0 <= i < |callbacks| && callbacks[i].id == id
  }

  ghost predicate AllListed<Key>(callbacks: seq<Node>, key: Key, handles: map<nat, Key>) {
    forall id :: id in handles && handles[id] == key ==> Listed(callbacks, id)
  }

  predicate NoneBlank(callbacks: seq<Node>) {
    forall i :: 0 <= i < |callbacks| ==> callbacks[i].present
  }

  /** Blanks are there in an invocation only, and the underlying request was handed out once. */
  ghost predicate EntryValid<Key>(e: Entry, key: Key, handles: map<nat, Key>, nextId: nat) {
    && Sound(e.callbacks, key, handles, nextId) && AllListed(e.callbacks, key, handles)
    && e.callbacks != [] && e.handedOut == 1
    && (NoneBlank(e.callbacks) || (e.inProgress && e.requireCleanup))
  }

  ghost predicate Valid<Key>(r: Registry<Key>, invoked: Option<Key>) {
    && (forall key :: key in r.entries ==> EntryValid(r.entries[key], key, r.handles, r.nextId))
    && (forall key :: key in r.entries ==> (r.entries[key].inProgress <==> invoked == Some(key)))
    && (invoked.Some? ==> invoked.value in r.entries)
    && (forall id :: id in r.handles ==> id < r.nextId && r.handles[id] in r.entries)
  }

  /** An entry is there exactly while somebody holds a handle on it or it is being invoked. */
  lemma EntryIsThere<Key>(r: Registry<Key>, invoked: Option<Key>, key: Key)
    requires Valid(r, invoked)
    ensures key in r.entries <==> (exists id :: id in r.handles && r.handles[id] == key) || invoked == Some(key)
  {
    if key in r.entries && invoked != Some(key) {
      assert EntryValid(r.entries[key], key, r.handles, r.nextId);
      assert r.entries[key].callbacks[0].present;
      assert r.handles[r.entries[key].callbacks[0].id] == key;
    }
  }

  // ---- An operation on one entry leaves the others alone ----

  ghost predicate OthersKept<Key>(r: Registry<Key>, after: Registry<Key>, key: Key) {
    && r.nextId <= after.nextId
    && (forall k :: k in r.entries && k != key ==> k in after.entries && after.entries[k] == r.entries[k])
    && (forall k :: k in after.entries && k != key ==> k in r.entries)
    && (forall id :: id in r.handles && r.handles[id] != key ==> id in after.handles && after.handles[id] == r.handles[id])
    && (forall id :: id in after.handles && id !in r.handles ==> id >= r.nextId && after.handles[id] == key)
    && (forall id :: id in after.handles && id in r.handles ==> after.handles[id] == r.handles[id])
  }

  lemma OtherStaysValid<Key>(r: Registry<Key>, after: Registry<Key>, key: Key, other: Key)
    requires OthersKept(r, after, key) && other != key && other in r.entries
    requires EntryValid(r.entries[other], other, r.handles, r.nextId)
    ensures EntryValid(r.entries[other], other, after.handles, after.nextId)
  {
    var callbacks := r.entries[other].callbacks;
    forall i | 0 <= i < |callbacks|
      ensures callbacks[i].present <==> callbacks[i].id in after.handles
    {
      assert callbacks[i].id < r.nextId;
    }
    forall id | id in after.handles && after.handles[id] == other ensures Listed(callbacks, id) {
      assert id in r.handles;
    }
  }

  lemma OneEntryChanged<Key>(r: Registry<Key>, after: Registry<Key>, key: Key, invoked: Option<Key>,
      invoked': Option<Key>)
    requires Valid(r, invoked) && OthersKept(r, after, key)
    requires invoked' == invoked || (invoked in {None, Some(key)} && invoked' in {None, Some(key)})
    requires if key in after.entries then
               && EntryValid(after.entries[key], key, after.handles, after.nextId)
               && (after.entries[key].inProgress <==> invoked' == Some(key))
             else invoked' != Some(key)
    requires forall id :: id in after.handles && after.handles[id] == key ==> id < after.nextId && key in after.entries
    ensures Valid(after, invoked')
  {
    hide EntryValid;
    forall k | k in after.entries && k != key ensures EntryValid(after.entries[k], k, after.handles, after.nextId) {
      OtherStaysValid(r, after, key, k);
    }
  }

  // ---- Registering ----

  lemma AppendSound<Key>(callbacks: seq<Node>, key: Key, handles: map<nat, Key>, nextId: nat)
    requires Sound(callbacks, key, handles, nextId) && AllListed(callbacks, key, handles)
    ensures var callbacks', handles' := callbacks + [Node(nextId, true)], handles[nextId := key];
      Sound(callbacks', key, handles', nextId + 1) && AllListed(callbacks', key, handles')
  {
    var callbacks', handles' := callbacks + [Node(nextId, true)], handles[nextId := key];
    forall id | id in handles' && handles'[id] == key ensures Listed(callbacks', id) {
      if id == nextId {
        assert callbacks'[|callbacks|].id == id;
      } else {
        var i :| 0 <= i < |callbacks| && callbacks[i].id == id;
        assert callbacks'[i].id == id;
      }
    }
  }

  /** The underlying request is handed out to whoever makes the entry, and to nobody else. */
  lemma CreateKeeps<Key>(r: Registry<Key>, invoked: Option<Key>, key: Key)
    requires Valid(r, invoked)
    ensures Valid(Created(r, key).0, invoked)
    ensures Created(r, key).1 <==> key !in r.entries
  {
    hide Sound, AllListed;
    var after := Created(r, key).0;
    var callbacks := if key in r.entries then r.entries[key].callbacks else [];
    if key !in r.entries {
      NothingSound(key, r.handles, r.nextId);
    } else {
      assert EntryValid(r.entries[key], key, r.handles, r.nextId);
    }
    AppendSound(callbacks, key, r.handles, r.nextId);
    assert NoneBlank(callbacks) ==> NoneBlank(callbacks + [Node(r.nextId, true)]);
    hide EntryValid;
    OneEntryChanged(r, after, key, invoked, invoked);
  }

  lemma NothingSound<Key>(key: Key, handles: map<nat, Key>, nextId: nat)
    requires forall id :: id in handles ==> handles[id] != key
    ensures Sound([], key, handles, nextId) && AllListed([], key, handles)
  {
  }

  // ---- Letting a handle go ----

  lemma BlankSound<Key>(callbacks: seq<Node>, i: nat, key: Key, handles: map<nat, Key>, nextId: nat)
    requires Sound(callbacks, key, handles, nextId) && AllListed(callbacks, key, handles) && i < |callbacks|
    ensures var id := callbacks[i].id;
      Sound(callbacks[i := Node(id, false)], key, handles - {id}, nextId)
      && AllListed(callbacks[i := Node(id, false)], key, handles - {id})
  {
    var id := callbacks[i].id;
    var callbacks', handles' := callbacks[i := Node(id, false)], handles - {id};
    forall other | other in handles' && handles'[other] == key ensures Listed(callbacks', other) {
      var j :| 0 <= j < |callbacks| && callbacks[j].id == other;
      assert callbacks'[j].id == other;
    }
  }

  lemma EraseSound<Key>(callbacks: seq<Node>, i: nat, key: Key, handles: map<nat, Key>, nextId: nat)
    requires Sound(callbacks, key, handles, nextId) && AllListed(callbacks, key, handles) && i < |callbacks|
    ensures var callbacks', handles' := Erased(callbacks, i), handles - {callbacks[i].id};
      Sound(callbacks', key, handles', nextId) && AllListed(callbacks', key, handles')
      && (NoneBlank(callbacks) ==> NoneBlank(callbacks'))
  {
    var id := callbacks[i].id;
    var callbacks', handles' := Erased(callbacks, i), handles - {id};
    forall other | other in handles' && handles'[other] == key ensures Listed(callbacks', other) {
      var j :| 0 <= j < |callbacks| && callbacks[j].id == other;
      assert callbacks'[if j < i then j else j - 1].id == other;
    }
  }

  lemma NoneLeft<Key>(key: Key, handles: map<nat, Key>, nextId: nat)
    requires AllListed([], key, handles)
    ensures forall id :: id in handles ==> handles[id] != key
  {
    forall id | id in handles ensures handles[id] != key {
      assert !Listed([], id);
    }
  }

  /** An entry whose list has been cleaned up is kept as long as the list is not empty. */
  lemma CleanedUp<Key>(r: Registry<Key>, key: Key, entry: Entry, handles: map<nat, Key>, invoked: Option<Key>,
      invoked': Option<Key>)
    requires Valid(r, invoked) && key in r.entries && invoked' == (if invoked == Some(key) then None else invoked)
    requires !entry.inProgress && NoneBlank(entry.callbacks) && entry.handedOut == 1
    requires Sound(entry.callbacks, key, handles, r.nextId) && AllListed(entry.callbacks, key, handles)
    requires forall id :: id in r.handles && r.handles[id] != key ==> id in handles
    requires forall id :: id in handles ==> id in r.handles && handles[id] == r.handles[id]
    ensures Valid(Registry(DestroyIfEmpty(r.entries, key, entry), handles, r.nextId), invoked')
  {
    hide Sound, AllListed, NoneBlank;
    var after := Registry(DestroyIfEmpty(r.entries, key, entry), handles, r.nextId);
    if entry.callbacks == [] {
      NoneLeft(key, handles, r.nextId);
    } else {
      assert EntryValid(after.entries[key], key, handles, r.nextId);
    }
    hide EntryValid;
    OneEntryChanged(r, after, key, invoked, invoked');
  }

  lemma HeldIsListed<Key>(r: Registry<Key>, invoked: Option<Key>, id: nat)
    requires Valid(r, invoked) && id in r.handles
    ensures r.handles[id] in r.entries
    ensures var callbacks := r.entries[r.handles[id]].callbacks;
      Position(callbacks, id) < |callbacks| && callbacks[Position(callbacks, id)].id == id
  {
    var key := r.handles[id];
    assert EntryValid(r.entries[key], key, r.handles, r.nextId);
    assert Listed(r.entries[key].callbacks, id);
  }

  lemma BlankKeeps<Key>(r: Registry<Key>, invoked: Option<Key>, id: nat)
    requires Valid(r, invoked) && id in r.handles && r.handles[id] in r.entries && r.entries[r.handles[id]].inProgress
    ensures Valid(DestroyInner(r, id), invoked) && DestroyInner(r, id).handles == r.handles - {id}
  {
    HeldIsListed(r, invoked, id);
    hide Sound, AllListed, Position, Listed, Erased, NoneBlank;
    var after, key := DestroyInner(r, id), r.handles[id];
    var entry := r.entries[key];
    assert EntryValid(entry, key, r.handles, r.nextId);
    BlankSound(entry.callbacks, Position(entry.callbacks, id), key, r.handles, r.nextId);
    assert EntryValid(after.entries[key], key, after.handles, after.nextId);
    hide EntryValid;
    OneEntryChanged(r, after, key, invoked, invoked);
  }

  lemma EntryFacts<Key>(r: Registry<Key>, invoked: Option<Key>, key: Key)
    requires Valid(r, invoked) && key in r.entries
    ensures var e := r.entries[key];
      && Sound(e.callbacks, key, r.handles, r.nextId) && AllListed(e.callbacks, key, r.handles) && e.handedOut == 1
      && (e.inProgress <==> invoked == Some(key)) && (!e.inProgress ==> NoneBlank(e.callbacks))
  {
    assert EntryValid(r.entries[key], key, r.handles, r.nextId);
  }

  lemma EraseKeeps<Key>(r: Registry<Key>, invoked: Option<Key>, id: nat)
    requires Valid(r, invoked) && id in r.handles && r.handles[id] in r.entries && !r.entries[r.handles[id]].inProgress
    ensures Valid(DestroyInner(r, id), invoked) && DestroyInner(r, id).handles == r.handles - {id}
  {
    hide Valid, Sound, AllListed, Position, Listed, Erased, NoneBlank, DestroyIfEmpty;
    HeldIsListed(r, invoked, id);
    var key := r.handles[id];
    EntryFacts(r, invoked, key);
    var callbacks := r.entries[key].callbacks;
    var i := Position(callbacks, id);
    EraseSound(callbacks, i, key, r.handles, r.nextId);
    CleanedUp(r, key, r.entries[key].(callbacks := Erased(callbacks, i)), r.handles - {id}, invoked, invoked);
  }

  lemma DestroyInnerKeeps<Key>(r: Registry<Key>, invoked: Option<Key>, id: nat)
    requires Valid(r, invoked) && id in r.handles
    ensures Valid(DestroyInner(r, id), invoked)
    ensures DestroyInner(r, id).handles == r.handles - {id}
  {
    HeldIsListed(r, invoked, id);
    hide Valid, DestroyInner;
    if r.entries[r.handles[id]].inProgress {
      BlankKeeps(r, invoked, id);
    } else {
      EraseKeeps(r, invoked, id);
    }
  }

  /** How the callbacks of an entry are left when one is let go of. */
  ghost predicate LetGo(before: Entry, i: nat, id: nat, isThere: bool, after: Entry) {
    && i < |before.callbacks| && before.callbacks[i] == Node(id, true)
    && (isThere <==> before.inProgress || |before.callbacks| > 1)
    && (isThere && before.inProgress ==>
          after == before.(callbacks := before.callbacks[i := Node(id, false)], requireCleanup := true))
    && (isThere && !before.inProgress ==>
          after == before.(callbacks := before.callbacks[..i] + before.callbacks[i + 1..]))
  }

  /**
    In an invocation of its key the callback is made blank where it is, and a clean-up asked for; otherwise it is
    taken out of the list, and the last one takes the entry along. Nothing else changes anywhere.
  */
  lemma DestroyInnerExactly<Key>(r: Registry<Key>, invoked: Option<Key>, id: nat)
    requires Valid(r, invoked) && id in r.handles
    ensures var key, after := r.handles[id], DestroyInner(r, id);
      && key in r.entries && after.nextId == r.nextId && after.handles == r.handles - {id}
      && (exists i :: LetGo(r.entries[key], i, id, key in after.entries, EntryOf(after.entries, key)))
      && after.entries - {key} == r.entries - {key}
  {
    HeldIsListed(r, invoked, id);
    var key, after := r.handles[id], DestroyInner(r, id);
    EntryFacts(r, invoked, key);
    var entry := r.entries[key];
    var i := Position(entry.callbacks, id);
    assert entry.callbacks[i].present;
    hide Valid, Sound, AllListed, Position, NoneBlank;
    assert |Erased(entry.callbacks, i)| == |entry.callbacks| - 1;
    assert LetGo(entry, i, id, key in after.entries, EntryOf(after.entries, key));
  }

  // ---- Invocations ----

  lemma EnterKeeps<Key>(r: Registry<Key>, key: Key)
    requires Valid(r, None) && key in r.entries
    ensures Valid(EnterInvocation(r, key), Some(key))
  {
    hide Sound, AllListed;
    var after := EnterInvocation(r, key);
    assert EntryValid(r.entries[key], key, r.handles, r.nextId);
    assert EntryValid(after.entries[key], key, after.handles, after.nextId);
    hide EntryValid;
    OneEntryChanged(r, after, key, None, Some(key));
  }

  lemma {:induction false} NotBlankIsPart(callbacks: seq<Node>)
    ensures NoneBlank(NotBlank(callbacks))
    ensures forall node :: node in NotBlank(callbacks) <==> node in callbacks && node.present
  {
    if callbacks != [] {
      NotBlankIsPart(callbacks[1..]);
      assert forall node :: node in callbacks <==> node == callbacks[0] || node in callbacks[1..];
    }
  }

  lemma PrependSound<Key>(node: Node, rest: seq<Node>, key: Key, handles: map<nat, Key>, nextId: nat)
    requires Sound([node], key, handles, nextId) && Sound(rest, key, handles, nextId)
    requires forall i :: 0 <= i < |rest| ==> node.id < rest[i].id
    ensures Sound([node] + rest, key, handles, nextId)
  {
  }

  lemma FirstSound<Key>(callbacks: seq<Node>, key: Key, handles: map<nat, Key>, nextId: nat)
    requires Sound(callbacks, key, handles, nextId) && callbacks != []
    ensures Sound([callbacks[0]], key, handles, nextId) && Sound(callbacks[1..], key, handles, nextId)
    ensures forall node :: node in callbacks[1..] ==> callbacks[0].id < node.id
  {
    assert forall i :: 0 <= i < |callbacks[1..]| ==> callbacks[1..][i] == callbacks[i + 1];
  }

  lemma {:induction false} NotBlankSound<Key>(callbacks: seq<Node>, key: Key, handles: map<nat, Key>, nextId: nat)
    requires Sound(callbacks, key, handles, nextId)
    ensures Sound(NotBlank(callbacks), key, handles, nextId)
  {
    if callbacks != [] {
      hide Sound;
      FirstSound(callbacks, key, handles, nextId);
      NotBlankSound(callbacks[1..], key, handles, nextId);
      NotBlankIsPart(callbacks[1..]);
      if callbacks[0].present {
        PrependSound(callbacks[0], NotBlank(callbacks[1..]), key, handles, nextId);
      }
    }
  }

  lemma NotBlankListed<Key>(callbacks: seq<Node>, key: Key, handles: map<nat, Key>, nextId: nat)
    requires Sound(callbacks, key, handles, nextId) && AllListed(callbacks, key, handles)
    ensures AllListed(NotBlank(callbacks), key, handles)
  {
    NotBlankIsPart(callbacks);
    forall id | id in handles && handles[id] == key ensures Listed(NotBlank(callbacks), id) {
      var i :| 0 <= i < |callbacks| && callbacks[i].id == id;
      assert callbacks[i] in NotBlank(callbacks);
    }
  }

  lemma {:induction false} NoneToRemove(callbacks: seq<Node>)
    requires NoneBlank(callbacks)
    ensures NotBlank(callbacks) == callbacks
  {
    if callbacks != [] {
      assert callbacks[0].present;
      assert forall i :: 0 <= i < |callbacks[1..]| ==> callbacks[1..][i] == callbacks[i + 1];
      NoneToRemove(callbacks[1..]);
    }
  }

  /** The clean-up takes exactly the blanks out, and the entry along if nothing else is in it; nothing else changes. */
  lemma ExitExactly<Key>(r: Registry<Key>, key: Key)
    requires Valid(r, Some(key))
    ensures var entry, after := r.entries[key], ExitInvocation(r, key);
      && after.handles == r.handles && after.nextId == r.nextId && after.entries - {key} == r.entries - {key}
      && (key in after.entries <==> NotBlank(entry.callbacks) != [])
      && (key in after.entries ==>
            after.entries[key] == Entry(NotBlank(entry.callbacks), false, false, entry.handedOut))
  {
    var entry := r.entries[key];
    assert EntryValid(entry, key, r.handles, r.nextId);
    hide Sound, AllListed, NotBlank;
    if !entry.requireCleanup {
      NoneToRemove(entry.callbacks);
    }
  }

  lemma ExitKeeps<Key>(r: Registry<Key>, key: Key)
    requires Valid(r, Some(key))
    ensures Valid(ExitInvocation(r, key), None)
  {
    hide Sound, AllListed, DestroyIfEmpty;
    var entry := r.entries[key];
    assert EntryValid(entry, key, r.handles, r.nextId);
    var kept := entry.callbacks;
    if entry.requireCleanup {
      NotBlankIsPart(entry.callbacks);
      NotBlankSound(entry.callbacks, key, r.handles, r.nextId);
      NotBlankListed(entry.callbacks, key, r.handles, r.nextId);
      kept := NotBlank(entry.callbacks);
    }
    CleanedUp(r, key, entry.(callbacks := kept, requireCleanup := false, inProgress := false), r.handles,
      Some(key), None);
  }

  // ---- What callbacks do during an invocation ----

  /** The list being gone through grows at its end, and what is blank stays blank. */
  ghost predicate Grew(before: seq<Node>, after: seq<Node>) {
    && |before| <= |after|
    && (forall i :: 0 <= i < |before| ==> after[i].id == before[i].id && (after[i].present ==> before[i].present))
  }

  /** Handles come and go as the events say, and one that has gone does not come back. */
  ghost predicate Told<Key>(r: Registry<Key>, after: Registry<Key>, events: seq<Event<Key>>) {
    && r.nextId <= after.nextId
    && (forall id :: id in after.handles && id < r.nextId ==> id in r.handles && after.handles[id] == r.handles[id])
    && (forall id :: id in after.handles && id >= r.nextId ==> Registered(id, after.handles[id]) in events)
    && (forall id :: id in r.handles && id !in after.handles ==> Released(id) in events)
    && (forall p :: 0 <= p < |events| && events[p].Released? ==>
         events[p].id < after.nextId && events[p].id !in after.handles)
  }

  predicate Silent<Key>(events: seq<Event<Key>>) {
    forall p :: 0 <= p < |events| ==> !events[p].Called?
  }

  lemma PerformKeeps<Key>(r: Registry<Key>, invoked: Option<Key>, a: Action<Key>)
    requires Valid(r, invoked)
    ensures var (after, events) := Perform(r, a);
      Valid(after, invoked) && Told(r, after, events) && Silent(events)
  {
    hide EntryValid, DestroyInner;
    match a
    case Register(k) =>
      CreateKeeps(r, invoked, k);
    case Release(id) =>
      if id in r.handles {
        DestroyInnerKeeps(r, invoked, id);
        DestroyInnerCounts(r, id);
      }
  }

  lemma DestroyInnerCounts<Key>(r: Registry<Key>, id: nat)
    ensures DestroyInner(r, id).nextId == r.nextId
  {
  }

  lemma PerformGrows<Key>(r: Registry<Key>, key: Key, a: Action<Key>)
    requires Valid(r, Some(key)) && key in Perform(r, a).0.entries
    ensures Grew(r.entries[key].callbacks, Perform(r, a).0.entries[key].callbacks)
  {
    hide EntryValid, Position;
  }

  lemma ToldInTurn<Key>(r: Registry<Key>, r1: Registry<Key>, r2: Registry<Key>, e1: seq<Event<Key>>, e2: seq<Event<Key>>)
    requires Told(r, r1, e1) && Told(r1, r2, e2)
    ensures Told(r, r2, e1 + e2)
  {
  }

  lemma {:induction false} PerformAllKeeps<Key>(r: Registry<Key>, key: Key, actions: seq<Action<Key>>)
    requires Valid(r, Some(key))
    ensures var (after, events) := PerformAll(r, actions);
      && Valid(after, Some(key)) && Told(r, after, events) && Silent(events) && key in after.entries
      && Grew(r.entries[key].callbacks, after.entries[key].callbacks)
    decreases |actions|
  {
    hide EntryValid, Perform;
    if actions != [] {
      var (next, events) := Perform(r, actions[0]);
      PerformKeeps(r, Some(key), actions[0]);
      PerformGrows(r, key, actions[0]);
      PerformAllKeeps(next, key, actions[1..]);
      var (last, more) := PerformAll(next, actions[1..]);
      ToldInTurn(r, next, last, events, more);
    }
  }

  // ---- An invocation calls everybody who is still there, once ----

  /** Callbacks are called in the order they were registered, none twice, and none after its handle is gone. */
  predicate CalledProperly<Key>(events: seq<Event<Key>>) {
    && (forall p, q :: 0 <= p < q < |events| && events[p].Called? && events[q].Called? ==> events[p].id < events[q].id)
    && (forall p, q :: 0 <= p < q < |events| && events[p].Released? && events[q].Called? ==> events[p].id != events[q].id)
  }

  /** Those called are held, or will be registered, under the key. */
  ghost predicate CalledHeld<Key>(r: Registry<Key>, key: Key, events: seq<Event<Key>>) {
    forall p :: 0 <= p < |events| && events[p].Called? ==>
      var id := events[p].id;
      if id < r.nextId then id in r.handles && r.handles[id] == key else Registered(id, key) in events
  }

  /** Those called are among the listed ones from a place on. */
  ghost predicate CalledListed<Key>(callbacks: seq<Node>, from: nat, events: seq<Event<Key>>) {
    forall p :: 0 <= p < |events| && events[p].Called? ==>
      exists j :: from <= j < |callbacks| && callbacks[j].id == events[p].id
  }

  /** Whoever is listed from a place on, and is not blank, has been called. */
  ghost predicate NobodyMissed<Key>(callbacks: seq<Node>, from: nat, events: seq<Event<Key>>) {
    forall j :: from <= j < |callbacks| && callbacks[j].present ==> Called(callbacks[j].id) in events
  }

  lemma CalledProperlyNext<Key>(r1: Registry<Key>, r2: Registry<Key>, key: Key, i: nat, id: nat,
                                e1: seq<Event<Key>>, e2: seq<Event<Key>>, callbacks: seq<Node>)
    requires Silent(e1) && CalledProperly(e2) && CalledHeld(r1, key, e2) && CalledListed(callbacks, i + 1, e2)
    requires i < |callbacks| && callbacks[i].id == id
    requires forall j, k :: 0 <= j < k < |callbacks| ==> callbacks[j].id < callbacks[k].id
    requires forall p :: 0 <= p < |e1| && e1[p].Released? ==> e1[p].id < r1.nextId && e1[p].id !in r1.handles
    ensures CalledProperly([Called(id)] + e1 + e2)
  {
    var events := [Called(id)] + e1 + e2;
    var n := 1 + |e1|;
    assert forall q :: 0 < q < n ==> events[q] == e1[q - 1];
    assert forall q :: n <= q < |events| ==> events[q] == e2[q - n];
  }

  lemma CalledHeldNext<Key>(r: Registry<Key>, r1: Registry<Key>, key: Key, id: nat, e1: seq<Event<Key>>,
      e2: seq<Event<Key>>)
    requires Told(r, r1, e1) && Silent(e1) && CalledHeld(r1, key, e2)
    requires id < r.nextId && id in r.handles && r.handles[id] == key
    ensures CalledHeld(r, key, [Called(id)] + e1 + e2)
  {
    var events := [Called(id)] + e1 + e2;
    var n := 1 + |e1|;
    assert forall q :: 0 < q < n ==> events[q] == e1[q - 1];
    forall p | 0 <= p < |events| && events[p].Called?
      ensures var c := events[p].id;
        if c < r.nextId then c in r.handles && r.handles[c] == key else Registered(c, key) in events
    {
      if p >= n {
        assert events[p] == e2[p - n];
      }
    }
  }

  lemma CalledListedNext<Key>(callbacks: seq<Node>, i: nat, id: nat, e1: seq<Event<Key>>, e2: seq<Event<Key>>)
    requires Silent(e1) && CalledListed(callbacks, i + 1, e2) && i < |callbacks| && callbacks[i].id == id
    ensures CalledListed(callbacks, i, [Called(id)] + e1 + e2)
  {
    var events := [Called(id)] + e1 + e2;
    var n := 1 + |e1|;
    assert forall q :: 0 < q < n ==> events[q] == e1[q - 1];
    forall p | 0 <= p < |events| && events[p].Called?
      ensures exists j :: i <= j < |callbacks| && callbacks[j].id == events[p].id
    {
      if p >= n {
        assert events[p] == e2[p - n];
      }
    }
  }

  ghost predicate GoesThrough<Key>(r: Registry<Key>, after: Registry<Key>, key: Key, i: nat, events: seq<Event<Key>>) {
    && Valid(after, Some(key)) && Told(r, after, events) && key in r.entries && key in after.entries
    && Grew(r.entries[key].callbacks, after.entries[key].callbacks)
    && CalledProperly(events) && CalledHeld(r, key, events)
    && CalledListed(after.entries[key].callbacks, i, events) && NobodyMissed(after.entries[key].callbacks, i, events)
  }

  lemma NothingToCall<Key>(r: Registry<Key>, key: Key, i: nat)
    requires Valid(r, Some(key)) && i >= |r.entries[key].callbacks|
    ensures GoesThrough(r, r, key, i, [])
  {
    hide EntryValid;
  }

  lemma SkipBlank<Key>(r: Registry<Key>, after: Registry<Key>, key: Key, i: nat, events: seq<Event<Key>>)
    requires GoesThrough(r, after, key, i + 1, events) && i < |r.entries[key].callbacks|
    requires !r.entries[key].callbacks[i].present
    ensures GoesThrough(r, after, key, i, events)
  {
    hide Valid, Told, CalledProperly, CalledHeld;
  }

  lemma ListedOnce<Key>(r: Registry<Key>, invoked: Option<Key>, key: Key)
    requires Valid(r, invoked) && key in r.entries
    ensures forall id :: id in r.handles ==> id < r.nextId
    ensures var callbacks := r.entries[key].callbacks;
      && (forall j, k :: 0 <= j < k < |callbacks| ==> callbacks[j].id < callbacks[k].id)
      && (forall j :: 0 <= j < |callbacks| && callbacks[j].present ==>
           var id := callbacks[j].id; id < r.nextId && id in r.handles && r.handles[id] == key)
  {
    assert EntryValid(r.entries[key], key, r.handles, r.nextId);
  }

  lemma ToldNext<Key>(r: Registry<Key>, r1: Registry<Key>, r2: Registry<Key>, id: nat, e1: seq<Event<Key>>,
      e2: seq<Event<Key>>)
    requires forall h :: h in r.handles ==> h < r.nextId
    requires Told(r, r1, e1) && Told(r1, r2, e2)
    ensures Told(r, r2, [Called(id)] + e1 + e2)
  {
    assert Told(r, r, [Called(id)]);
    hide Told;
    ToldInTurn(r, r, r1, [Called(id)], e1);
    ToldInTurn(r, r1, r2, [Called(id)] + e1, e2);
  }

  lemma CallNext<Key>(r: Registry<Key>, r1: Registry<Key>, r2: Registry<Key>, key: Key, i: nat,
      e1: seq<Event<Key>>, e2: seq<Event<Key>>)
    requires Valid(r, Some(key)) && key in r.entries
    requires i < |r.entries[key].callbacks| && r.entries[key].callbacks[i].present
    requires Told(r, r1, e1) && Silent(e1) && key in r1.entries && Grew(r.entries[key].callbacks,
      r1.entries[key].callbacks)
    requires GoesThrough(r1, r2, key, i + 1, e2)
    ensures GoesThrough(r, r2, key, i, [Called(r.entries[key].callbacks[i].id)] + e1 + e2)
  {
    hide Valid, Told, Silent, CalledProperly, CalledHeld, CalledListed, NobodyMissed, Grew;
    var id, callbacks := r.entries[key].callbacks[i].id, r2.entries[key].callbacks;
    ListedOnce(r, Some(key), key);
    ListedOnce(r2, Some(key), key);
    GrewInTurn(r.entries[key].callbacks, r1.entries[key].callbacks, callbacks, i);
    ReleasedGone(r, r1, e1);
    CalledProperlyNext(r1, r2, key, i, id, e1, e2, callbacks);
    CalledHeldNext(r, r1, key, id, e1, e2);
    CalledListedNext(callbacks, i, id, e1, e2);
    ToldNext(r, r1, r2, id, e1, e2);
    NobodyMissedNext(callbacks, i, id, [Called(id)] + e1, e2);
  }

  lemma GrewInTurn(before: seq<Node>, between: seq<Node>, after: seq<Node>, i: nat)
    requires Grew(before, between) && Grew(between, after) && i < |before|
    ensures Grew(before, after) && i < |after| && after[i].id == before[i].id
  {
  }

  lemma ReleasedGone<Key>(r: Registry<Key>, after: Registry<Key>, events: seq<Event<Key>>)
    requires Told(r, after, events)
    ensures forall p :: 0 <= p < |events| && events[p].Released? ==>
      events[p].id < after.nextId && events[p].id !in after.handles
  {
  }

  lemma NobodyMissedNext<Key>(callbacks: seq<Node>, i: nat, id: nat, e1: seq<Event<Key>>, e2: seq<Event<Key>>)
    requires NobodyMissed(callbacks, i + 1, e2) && Called(id) in e1
    requires i < |callbacks| ==> callbacks[i].id == id
    ensures NobodyMissed(callbacks, i, e1 + e2)
  {
  }

  lemma {:induction false} CallFromGoesThrough<Key>(r: Registry<Key>, key: Key, i: nat, scripts: seq<seq<Action<Key>>>)
    requires Valid(r, Some(key))
    ensures var (after, events) := CallFrom(r, key, i, scripts); GoesThrough(r, after, key, i, events)
    decreases |scripts|, AtLeastZero(|r.entries[key].callbacks| - i)
  {
    hide EntryValid, PerformAll, GoesThrough, Told, Silent, Grew;
    if i >= |r.entries[key].callbacks| {
      NothingToCall(r, key, i);
    } else if !r.entries[key].callbacks[i].present {
      CallFromGoesThrough(r, key, i + 1, scripts);
      var (after, events) := CallFrom(r, key, i + 1, scripts);
      SkipBlank(r, after, key, i, events);
    } else {
      PerformAllKeeps(r, key, First(scripts));
      NoScript(r);
      var (next, events) := PerformAll(r, First(scripts));
      CallFromGoesThrough(next, key, i + 1, After(scripts));
      var (last, more) := CallFrom(next, key, i + 1, After(scripts));
      CallNext(r, next, last, key, i, events, more);
    }
  }

  lemma NoScript<Key>(r: Registry<Key>)
    ensures PerformAll(r, []) == (r, [])
  {
  }

  // ---- Invocation as a whole ----

  function Invoked<Key>(r: Registry<Key>, key: Key, scripts: seq<seq<Action<Key>>>): (Registry<Key>, seq<Event<Key>>)
    requires key in r.entries
  {
    var (last, events) := CallFrom(EnterInvocation(r, key), key, 0, scripts);
    (if key in last.entries then ExitInvocation(last, key) else last, events)
  }

  lemma InvokedInTurn<Key>(r: Registry<Key>, key: Key, scripts: seq<seq<Action<Key>>>)
    requires Valid(r, None) && key in r.entries
    ensures var (last, events) := CallFrom(EnterInvocation(r, key), key, 0, scripts);
      key in last.entries && Invoked(r, key, scripts) == (ExitInvocation(last, key), events)
  {
    hide EntryValid, CallFrom, ExitInvocation, CalledProperly, CalledHeld, CalledListed, Grew;
    EnterKeeps(r, key);
    CallFromGoesThrough(EnterInvocation(r, key), key, 0, scripts);
  }

  /**
    Whatever the callbacks register and release: each callback that keeps its handle to the end has been called;
    one that has not been called was released on the way; nobody is called twice, or after its handle is gone,
    or without having been registered under the key.
  */
  lemma InvokeCallsEachOnce<Key>(r: Registry<Key>, key: Key, scripts: seq<seq<Action<Key>>>)
    requires Valid(r, None) && key in r.entries
    ensures var (after, events) := Invoked(r, key, scripts);
      && Valid(after, None) && CalledProperly(events) && CalledHeld(r, key, events)
      && (forall id :: id in after.handles && after.handles[id] == key ==> Called(id) in events)
      && (forall id :: id in r.handles && r.handles[id] == key ==> Called(id) in events || Released(id) in events)
  {
    hide EntryValid, CalledProperly, CalledHeld, CalledListed, CallFrom, Grew;
    EnterKeeps(r, key);
    var entered := EnterInvocation(r, key);
    CallFromGoesThrough(entered, key, 0, scripts);
    var (last, events) := CallFrom(entered, key, 0, scripts);
    ExitKeeps(last, key);
    SameHeld(r, entered, key, events);
    forall id | id in last.handles && last.handles[id] == key ensures Called(id) in events {
      HeldIsListed(last, Some(key), id);
      HeldIsPresent(last, Some(key), id);
    }
  }

  lemma SameHeld<Key>(r: Registry<Key>, r': Registry<Key>, key: Key, events: seq<Event<Key>>)
    requires CalledHeld(r', key, events) && r.handles == r'.handles && r.nextId == r'.nextId
    ensures CalledHeld(r, key, events)
  {
  }

  lemma HeldIsPresent<Key>(r: Registry<Key>, invoked: Option<Key>, id: nat)
    requires Valid(r, invoked) && id in r.handles && r.handles[id] in r.entries
    ensures var callbacks := r.entries[r.handles[id]].callbacks;
      exists j :: 0 <= j < |callbacks| && callbacks[j].id == id && callbacks[j].present
  {
    var key := r.handles[id];
    assert EntryValid(r.entries[key], key, r.handles, r.nextId);
    assert Listed(r.entries[key].callbacks, id);
  }

  lemma EnteredIsThere<Key>(r: Registry<Key>, key: Key)
    requires key in r.entries
    ensures var entered := r.entries[key].(inProgress := true);
      EnterInvocation(r, key) == Registry(r.entries[key := entered], r.handles, r.nextId)
  {
  }

  // ---- What callbacks do is done ----

  function Flattened<T>(scripts: seq<seq<T>>): seq<T> {
    if scripts == [] then [] else scripts[0] + Flattened(scripts[1..])
  }

  function CountCalls<Key>(events: seq<Event<Key>>): nat {
    if events == [] then 0 else (if events[0].Called? then 1 else 0) + CountCalls(events[1..])
  }

  function OtherEvents<Key>(events: seq<Event<Key>>): seq<Event<Key>> {
    if events == [] then [] else (if events[0].Called? then [] else [events[0]]) + OtherEvents(events[1..])
  }

  /** The scripts of so many callbacks. */
  function Taken<T>(scripts: seq<seq<T>>, n: nat): seq<seq<T>> {
    if n < |scripts| then scripts[..n] else scripts
  }

  lemma {:induction false} EventsApart<Key>(a: seq<Event<Key>>, b: seq<Event<Key>>)
    ensures CountCalls(a + b) == CountCalls(a) + CountCalls(b)
    ensures OtherEvents(a + b) == OtherEvents(a) + OtherEvents(b)
    decreases |a|
  {
    if a == [] {
      assert a + b == b;
    } else {
      assert (a + b)[1..] == a[1..] + b;
      EventsApart(a[1..], b);
    }
  }

  lemma {:induction false} PerformInTurn<Key>(r: Registry<Key>, a: seq<Action<Key>>, b: seq<Action<Key>>)
    ensures var (between, events) := PerformAll(r, a);
      var (after, more) := PerformAll(between, b);
      PerformAll(r, a + b) == (after, events + more)
    decreases |a|
  {
    hide Perform;
    if a == [] {
      assert a + b == b && [] + PerformAll(r, b).1 == PerformAll(r, b).1;
    } else {
      assert (a + b)[1..] == a[1..] + b;
      var (next, first) := Perform(r, a[0]);
      var (between, events) := PerformAll(next, a[1..]);
      var more := PerformAll(between, b).1;
      PerformInTurn(next, a[1..], b);
      assert first + (events + more) == first + events + more;
    }
  }

  lemma {:induction false} NoneOfThemCalls<Key>(r: Registry<Key>, actions: seq<Action<Key>>)
    ensures var events := PerformAll(r, actions).1;
      CountCalls(events) == 0 && OtherEvents(events) == events
    decreases |actions|
  {
    if actions != [] {
      hide Created, DestroyInner;
      var (next, events) := Perform(r, actions[0]);
      NoneOfThemCalls(next, actions[1..]);
      EventsApart(events, PerformAll(next, actions[1..]).1);
      assert CountCalls(events) == 0 && OtherEvents(events) == events by {
        if events != [] {
          assert events[1..] == [];
        }
      }
    }
  }

  lemma TakenNext<T>(scripts: seq<seq<T>>, n: nat)
    ensures Flattened(Taken(scripts, n + 1)) == First(scripts) + Flattened(Taken(After(scripts), n))
    ensures Flattened(Taken(scripts, 0)) == []
  {
    assert Taken(scripts, 0) == [];
    if scripts != [] {
      assert Taken(scripts, n + 1)[0] == scripts[0] && Taken(scripts, n + 1)[1..] == Taken(scripts[1..], n);
    }
  }

  /** Nothing but what the scripts of those called say happens, one script after the other. */
  ghost predicate Follows<Key>(r: Registry<Key>, scripts: seq<seq<Action<Key>>>, after: Registry<Key>,
                               events: seq<Event<Key>>) {
    PerformAll(r, Flattened(Taken(scripts, CountCalls(events)))) == (after, OtherEvents(events))
  }

  lemma {:induction false} CallFromFollows<Key>(r: Registry<Key>, key: Key, i: nat, scripts: seq<seq<Action<Key>>>)
    ensures var (after, events) := CallFrom(r, key, i, scripts); Follows(r, scripts, after, events)
    decreases |scripts|, if key in r.entries then AtLeastZero(|r.entries[key].callbacks| - i) else 0
  {
    hide PerformAll;
    NoScript(r);
    TakenNext(scripts, 0);
    if key in r.entries && i < |r.entries[key].callbacks| {
      var node := r.entries[key].callbacks[i];
      if !node.present {
        CallFromFollows(r, key, i + 1, scripts);
      } else {
        var (next, events) := PerformAll(r, First(scripts));
        CallFromFollows(next, key, i + 1, After(scripts));
        var (last, more) := CallFrom(next, key, i + 1, After(scripts));
        hide CallFrom;
        CallFollows(r, scripts, node.id, next, events, last, more);
      }
    }
  }

  lemma CallFollows<Key>(r: Registry<Key>, scripts: seq<seq<Action<Key>>>, id: nat, next: Registry<Key>,
                         events: seq<Event<Key>>, last: Registry<Key>, more: seq<Event<Key>>)
    requires PerformAll(r, First(scripts)) == (next, events) && Follows(next, After(scripts), last, more)
    ensures Follows(r, scripts, last, [Called(id)] + events + more)
  {
    hide PerformAll, Flattened, Taken, First, After;
    var called: seq<Event<Key>> := [Called(id)];
    assert called[1..] == [] && CountCalls(called) == 1 && OtherEvents(called) == [];
    NoneOfThemCalls(r, First(scripts));
    EventsApart(called, events);
    EventsApart(called + events, more);
    assert CountCalls(called + events + more) == CountCalls(more) + 1;
    assert OtherEvents(called + events + more) == [] + events + OtherEvents(more) == events + OtherEvents(more);
    TakenNext(scripts, CountCalls(more));
    PerformInTurn(r, First(scripts), Flattened(Taken(After(scripts), CountCalls(more))));
  }

  /** An invocation does what the callbacks it calls do, and nothing else but cleaning up. */
  lemma InvocationFollows<Key>(r: Registry<Key>, key: Key, scripts: seq<seq<Action<Key>>>)
    requires Valid(r, None) && key in r.entries
    ensures var (after, events) := Invoked(r, key, scripts);
      var (last, others) := PerformAll(EnterInvocation(r, key), Flattened(Taken(scripts, CountCalls(events))));
      && OtherEvents(events) == others
      && key in last.entries && after == ExitInvocation(last, key)
  {
    hide Valid, CallFrom, PerformAll, ExitInvocation, EnterInvocation, Invoked, Flattened, CountCalls, OtherEvents;
    InvokedInTurn(r, key, scripts);
    CallFromFollows(EnterInvocation(r, key), key, 0, scripts);
    var (last, events) := CallFrom(EnterInvocation(r, key), key, 0, scripts);
    assert Follows(EnterInvocation(r, key), scripts, last, events);
    assert Invoked(r, key, scripts) == (ExitInvocation(last, key), events);
  }

  // ---- Everything that can happen ----

  datatype Command<Key> = Do(action: Action<Key>) | Reply(key: Key, scripts: seq<seq<Action<Key>>>)

  /** A reply to a request nobody is interested in any more finds no entry. */
  function Obey<Key>(r: Registry<Key>, c: Command<Key>): Registry<Key> {
    match c
    case Do(action) => Perform(r, action).0
    case Reply(key, scripts) => if key in r.entries then Invoked(r, key, scripts).0 else r
  }

  function ObeyAll<Key>(r: Registry<Key>, commands: seq<Command<Key>>): Registry<Key>
    decreases |commands|
  {
    if commands == [] then r else ObeyAll(Obey(r, commands[0]), commands[1..])
  }

  lemma {:induction false} ObeyAllKeeps<Key>(r: Registry<Key>, commands: seq<Command<Key>>)
    requires Valid(r, None)
    ensures Valid(ObeyAll(r, commands), None)
    decreases |commands|
  {
    hide Valid, Perform, Invoked;
    if commands != [] {
      match commands[0] {
        case Do(action) => PerformKeeps(r, None, action);
        case Reply(key, scripts) =>
          if key in r.entries {
            InvokeCallsEachOnce(r, key, scripts);
          }
      }
      ObeyAllKeeps(Obey(r, commands[0]), commands[1..]);
    }
  }

  /** Between any commands, there are entries for the handles held and no others, each asked for once. */
  lemma EntriesAreForHandles<Key>(commands: seq<Command<Key>>, key: Key)
    ensures var r := ObeyAll(Registry(map[], map[], 0), commands);
      && (key in r.entries <==> exists id :: id in r.handles && r.handles[id] == key)
      && (key in r.entries ==> r.entries[key].handedOut == 1 && !r.entries[key].inProgress)
  {
    var r := ObeyAll(Registry(map[], map[], 0), commands);
    ObeyAllKeeps(Registry(map[], map[], 0), commands);
    hide ObeyAll;
    EntryIsThere(r, None, key);
    if key in r.entries {
      EntryFacts(r, None, key);
    }
  }

  // ---- The map of requests ----

  class MultiplexedRequests<Key(==)> {
    var entries: map<Key, Entry>
    var handles: map<nat, Key>
    var nextId: nat
    ghost var invoked: Option<Key>

    ghost function State(): Registry<Key>
      reads this
    {
      Registry(entries, handles, nextId)
    }

    ghost predicate Consistent()
      reads this
    {
      Valid(State(), invoked)
    }

    constructor ()
      ensures Consistent() && entries == map[] && handles == map[] && invoked == None
    {
      entries, handles, nextId, invoked := map[], map[], 0, None;
    }

    /** Registers a callback; the underlying request is made by the one who makes the entry, and by nobody else. */
    method Create(key: Key) returns (id: nat, underlying: bool)
      requires Consistent()
      modifies this`entries, this`handles, this`nextId
      ensures Consistent() && State() == Created(old(State()), key).0
      ensures id == old(nextId) && (underlying <==> key !in old(entries))
    {
      hide Valid, EntryOf, WithCallback;
      CreateKeeps(State(), invoked, key);
      var mx := EntryOf(entries, key);
      underlying := mx.callbacks == [];
      id := nextId;
      entries, handles, nextId := entries[key := WithCallback(mx, id)], handles[id := key], nextId + 1;
    }

    /** Lets a handle go. */
    method Release(id: nat)
      requires Consistent() && id in handles
      modifies this`entries, this`handles
      ensures Consistent() && State() == DestroyInner(old(State()), id) && handles == old(handles) - {id}
    {
      DestroyInnerKeeps(State(), invoked, id);
      HeldIsListed(State(), invoked, id);
      hide Valid, Position, Erased;
      var key := handles[id];
      var mx := entries[key];
      var inner := Position(mx.callbacks, id);
      handles := handles - {id};
      if mx.inProgress {
        entries := entries[key := mx.(callbacks := mx.callbacks[inner := Node(id, false)], requireCleanup := true)];
      } else {
        entries := DestroyIfEmpty(entries, key, mx.(callbacks := Erased(mx.callbacks, inner)));
      }
    }

    /** What a callback does, action by action. */
    method Execute(actions: seq<Action<Key>>) returns (ghost events: seq<Event<Key>>)
      requires Consistent()
      modifies this`entries, this`handles, this`nextId
      ensures Consistent() && (State(), events) == PerformAll(old(State()), actions)
    {
      hide Valid, Created, DestroyInner;
      ghost var (last, all) := PerformAll(State(), actions);
      events := [];
      var i := 0;
      assert actions[0..] == actions;
      while i < |actions|
        invariant i <= |actions| && Consistent()
        invariant PerformAll(State(), actions[i..]).0 == last
        invariant events + PerformAll(State(), actions[i..]).1 == all
      {
        assert actions[i..][1..] == actions[i + 1..];
        match actions[i] {
          case Register(key) =>
            var id, _ := Create(key);
            events := events + [Registered(id, key)];
          case Release(id) =>
            if id in handles {
              Release(id);
              events := events + [Released(id)];
            }
        }
        i := i + 1;
      }
      assert actions[i..] == [] && events + [] == events;
    }

    /** Goes through the list while it may be growing, and cleans up. */
    method Invoke(key: Key, scripts: seq<seq<Action<Key>>>) returns (ghost events: seq<Event<Key>>)
      requires Consistent() && invoked == None && key in entries
      modifies this
      ensures Consistent() && invoked == None
      ensures (State(), events) == Invoked(old(State()), key, scripts)
    {
      hide Sound, AllListed, NoneBlank;
      ghost var start := State();
      InvokedInTurn(start, key, scripts);
      EnterKeeps(start, key);
      EnteredIsThere(start, key);
      hide Valid, CallFrom, Invoked, ExitInvocation, EnterInvocation;
      entries := entries[key := entries[key].(inProgress := true)];
      invoked := Some(key);
      events := GoThrough(key, scripts);
      CleanUp(key);
    }

    method CleanUp(key: Key)
      requires Consistent() && invoked == Some(key) && key in entries
      modifies this`entries, this`invoked
      ensures Consistent() && invoked == None && State() == ExitInvocation(old(State()), key)
    {
      ExitKeeps(State(), key);
      hide Valid, NotBlank;
      var mx := entries[key];
      if mx.requireCleanup {
        mx := mx.(callbacks := NotBlank(mx.callbacks), requireCleanup := false);
      }
      mx := mx.(inProgress := false);
      entries := DestroyIfEmpty(entries, key, mx);
      invoked := None;
    }

    method GoThrough(key: Key, scripts: seq<seq<Action<Key>>>) returns (ghost events: seq<Event<Key>>)
      requires Consistent() && invoked == Some(key)
      modifies this`entries, this`handles, this`nextId
      ensures Consistent() && key in entries && (State(), events) == CallFrom(old(State()), key, 0, scripts)
    {
      hide EntryValid, PerformAll;
      ghost var (last, all) := CallFrom(State(), key, 0, scripts);
      events := [];
      assert events + all == all;
      var rest, i := scripts, 0;
      while i < |entries[key].callbacks|
        invariant Consistent() && key in entries
        invariant CallFrom(State(), key, i, rest).0 == last
        invariant events + CallFrom(State(), key, i, rest).1 == all
        decreases |rest|, AtLeastZero(|entries[key].callbacks| - i)
      {
        if entries[key].callbacks[i].present {
          ghost var id := entries[key].callbacks[i].id;
          ghost var more := CallFrom(PerformAll(State(), First(rest)).0, key, i + 1, After(rest)).1;
          NoScript(State());
          ghost var done := Execute(First(rest));
          assert events + ([Called(id)] + done + more) == events + [Called(id)] + done + more;
          events := events + [Called(id)] + done;
          rest := After(rest);
        }
        i := i + 1;
      }
      assert events + [] == events;
    }
  }
}
