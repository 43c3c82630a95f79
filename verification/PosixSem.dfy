/** POSIX named semaphores built on System V semaphores and shared memory, chapter_53/posix_sem.c.

    A SemSystem is the kernel's System V objects together with the sem_t structures of all processes. A name
    stands for its own key; a call is one atomic step, and it attaches and allocates successfully.
  */
module PosixSem {
  import opened PosixApi
  import opened SemaphoreHistory

  const SEM_MAGIC := 0x53454D00

  /** A semaphore set of one semaphore, with the key it was made for. */
  datatype SemSet = SemSet(key: string, value: nat)

  datatype Metadata = Metadata(initialized: int, unlinked: bool, refCount: int, mode: nat, name: string)

  datatype Segment = Segment(key: string, data: Metadata)

  /** struct posix_sem */
  datatype Sem = Sem(semid: int, shmid: int, name: string, refCount: int)

  /** The System V objects: which identifiers stand for a key, and the objects. */
  datatype Ipc = Ipc(semKeys: map<string, int>, shmKeys: map<string, int>,
                     sets: map<int, SemSet>, segments: map<int, Segment>)

  // ---------------------------------------------------------------- how the table is stored

  /** The System V objects of the name `n` hold `s`. */
  predicate Holds(n: string, s: Semaphore, set_: SemSet, seg: Segment) {
    && set_ == SemSet(n, s.value) && seg.key == n
    && var d := seg.data;
    && d.initialized == SEM_MAGIC && d.unlinked == s.unlinked && d.refCount == |s.opens| && d.name == n
    && (s.unlinked ==> s.opens != {})
  }

  /** Every name in the table has its two objects, and there are no others. */
  ghost predicate Stored(t: Table, k: Ipc) {
    && t.Keys == k.semKeys.Keys == k.shmKeys.Keys
    && (forall n | n in t :: k.semKeys[n] in k.sets && k.shmKeys[n] in k.segments
                             && Holds(n, t[n], k.sets[k.semKeys[n]], k.segments[k.shmKeys[n]]))
    && (forall id | id in k.sets :: k.sets[id].key in k.semKeys && k.semKeys[k.sets[id].key] == id)
    && (forall id | id in k.segments :: k.segments[id].key in k.shmKeys && k.shmKeys[k.segments[id].key] == id)
  }

  /** The sem_t structures are the open handles of the table; each refers to objects that are there. */
  ghost predicate Referred(t: Table, k: Ipc, sems: map<Handle, Sem>) {
    && (forall h | h in sems :: sems[h].name in t && h in t[sems[h].name].opens
                                && sems[h].name in k.semKeys && k.semKeys[sems[h].name] == sems[h].semid
                                && sems[h].name in k.shmKeys && k.shmKeys[sems[h].name] == sems[h].shmid)
    && (forall n, h | n in t && h in t[n].opens :: h in sems && sems[h].name == n)
  }

  ghost predicate Unused(k: Ipc, sems: map<Handle, Sem>, nextId: int, nextAddress: int) {
    && (forall id | id in k.sets :: id < nextId) && (forall id | id in k.segments :: id < nextId)
    && nextAddress > 0 && (forall h | h in sems :: 0 < h.address < nextAddress)
  }

  // ---------------------------------------------------------------- how the stored table changes

  /** Overwrites the two objects of the name. */
  function Put(k: Ipc, semid: int, shmid: int, set_: SemSet, seg: Segment): Ipc {
    k.(sets := k.sets[semid := set_], segments := k.segments[shmid := seg])
  }

  function Create(k: Ipc, n: string, semid: int, shmid: int, set_: SemSet, seg: Segment): Ipc {
    Ipc(k.semKeys[n := semid], k.shmKeys[n := shmid], k.sets[semid := set_], k.segments[shmid := seg])
  }

  /** IPC_RMID on both. */
  function Remove(k: Ipc, n: string, semid: int, shmid: int): Ipc {
    Ipc(k.semKeys - {n}, k.shmKeys - {n}, k.sets - {semid}, k.segments - {shmid})
  }

  lemma StoreCreate(t: Table, k: Ipc, n: string, s: Semaphore, semid: int, shmid: int, set_: SemSet, seg: Segment)
    requires Stored(t, k) && n !in t && semid !in k.sets && shmid !in k.segments && Holds(n, s, set_, seg)
    ensures Stored(t[n := s], Create(k, n, semid, shmid, set_, seg))
  {
  }

  lemma StorePut(t: Table, k: Ipc, n: string, s: Semaphore, set_: SemSet, seg: Segment)
    requires Stored(t, k) && n in t && Holds(n, s, set_, seg)
    ensures Stored(t[n := s], Put(k, k.semKeys[n], k.shmKeys[n], set_, seg))
  {
    assert t[n := s].Keys == t.Keys;
    var k' := Put(k, k.semKeys[n], k.shmKeys[n], set_, seg);
    forall m | m in t && m != n ensures k'.sets[k.semKeys[m]] == k.sets[k.semKeys[m]] {
      KeysApart(t, k, m, n);
    }
    forall m | m in t && m != n ensures k'.segments[k.shmKeys[m]] == k.segments[k.shmKeys[m]] {
      KeysApart(t, k, m, n);
    }
    hide Holds;
    KeyOf(n, s, set_, seg);
  }

  lemma KeyOf(n: string, s: Semaphore, set_: SemSet, seg: Segment)
    requires Holds(n, s, set_, seg)
    ensures set_.key == n && seg.key == n
  {
  }

  lemma KeysApart(t: Table, k: Ipc, m: string, n: string)
    requires Stored(t, k) && m in t && n in t && m != n
    ensures k.semKeys[m] in k.sets && k.semKeys[m] != k.semKeys[n]
    ensures k.shmKeys[m] in k.segments && k.shmKeys[m] != k.shmKeys[n]
  {
  }

  lemma StoreRemove(t: Table, k: Ipc, n: string)
    requires Stored(t, k) && n in t
    ensures Stored(t - {n}, Remove(k, n, k.semKeys[n], k.shmKeys[n]))
  {
  }

  lemma ReferOpen(t: Table, k: Ipc, sems: map<Handle, Sem>, nextId: int, e: Event, k': Ipc, sem: Sem)
    requires Referred(t, k, sems) && e.Opened? && Unused(k, sems, nextId, e.h.address)
    requires (e.name in t ==> !t[e.name].unlinked)
    requires k'.semKeys == k.semKeys[e.name := sem.semid] && k'.shmKeys == k.shmKeys[e.name := sem.shmid]
    requires sem.name == e.name
    requires e.name in t ==> k'.semKeys == k.semKeys && k'.shmKeys == k.shmKeys
    requires e.name !in t ==> e.name !in k.semKeys && e.name !in k.shmKeys
    ensures Legal(t, e) && Referred(Effect(t, e), k', sems[e.h := sem])
  {
    var h := e.h;
    forall m | m in t ensures h !in t[m].opens {
      assert h in t[m].opens ==> h in sems;
    }
  }

  lemma ReferClose(t: Table, k: Ipc, sems: map<Handle, Sem>, e: Event, k': Ipc)
    requires Referred(t, k, sems) && e.Closed? && e.h in sems && sems[e.h].name == e.name
    requires if t[e.name].unlinked && t[e.name].opens == {e.h}
             then k'.semKeys == k.semKeys - {e.name} && k'.shmKeys == k.shmKeys - {e.name}
             else k'.semKeys == k.semKeys && k'.shmKeys == k.shmKeys
    ensures Legal(t, e) && Referred(Effect(t, e), k', sems - {e.h})
  {
    forall g | g in sems && g != e.h && sems[g].name == e.name
      ensures t[e.name].opens != {e.h}
    {
      assert g in t[e.name].opens;
    }
  }

  lemma ReferSame(t: Table, k: Ipc, sems: map<Handle, Sem>, n: string, s: Semaphore, k': Ipc)
    requires Referred(t, k, sems) && n in t && s.opens == t[n].opens && k'.semKeys == k.semKeys
    requires k'.shmKeys == k.shmKeys
    ensures Referred(t[n := s], k', sems)
  {
  }

  lemma ReferNone(t: Table, k: Ipc, sems: map<Handle, Sem>, n: string, k': Ipc)
    requires Referred(t, k, sems) && n in t && t[n].opens == {}
    requires k'.semKeys == k.semKeys - {n} && k'.shmKeys == k.shmKeys - {n}
    ensures Referred(t - {n}, k', sems)
  {
  }

  /** The metadata of a new semaphore, open once. */
  function NewSegment(n: string, mode: nat): Segment {
    Segment(n, Metadata(SEM_MAGIC, false, 1, mode, n))
  }

  lemma OpenNew(t: Table, k: Ipc, e: Event, semid: int, shmid: int, mode: nat)
    requires Stored(t, k) && e.Opened? && e.name !in t && Legal(t, e) && semid !in k.sets && shmid !in k.segments
    ensures Stored(Effect(t, e), Create(k, e.name, semid, shmid, SemSet(e.name, e.value), NewSegment(e.name, mode)))
  {
    StoreCreate(t, k, e.name, Semaphore(e.value, false, {e.h}), semid, shmid, SemSet(e.name, e.value),
                NewSegment(e.name, mode));
  }

  lemma OpenOld(t: Table, k: Ipc, e: Event, set_: SemSet, seg: Segment)
    requires Stored(t, k) && e.Opened? && e.name in t && Legal(t, e)
    requires set_ == k.sets[k.semKeys[e.name]] && seg.key == e.name
    requires seg.data == var d := k.segments[k.shmKeys[e.name]].data; d.(refCount := d.refCount + 1)
    ensures Stored(Effect(t, e), Put(k, k.semKeys[e.name], k.shmKeys[e.name], set_, seg))
  {
    StorePut(t, k, e.name, t[e.name].(opens := t[e.name].opens + {e.h}), set_, seg);
  }

  lemma UnusedNext(k: Ipc, sems: map<Handle, Sem>, nextId: int, h: Handle, sem: Sem)
    requires Unused(k, sems, nextId, h.address)
    ensures Unused(k, sems[h := sem], nextId, h.address + 1) && h.address > 0 && h !in sems
  {
  }

  lemma UnusedPut(k: Ipc, sems: map<Handle, Sem>, nextId: int, a: int, semid: int, shmid: int, set_: SemSet,
                  seg: Segment)
    requires Unused(k, sems, nextId, a) && semid in k.sets && shmid in k.segments
    ensures Unused(Put(k, semid, shmid, set_, seg), sems, nextId, a)
  {
  }

  lemma UnusedCreate(k: Ipc, sems: map<Handle, Sem>, nextId: int, a: int, n: string, set_: SemSet, seg: Segment)
    requires Unused(k, sems, nextId, a)
    ensures Unused(Create(k, n, nextId, nextId + 1, set_, seg), sems, nextId + 2, a) && Unused(k, sems, nextId + 2, a)
    ensures nextId !in k.sets && nextId + 1 !in k.segments
  {
  }

  lemma Undone(k: Ipc, n: string, semid: int, shmid: int, set_: SemSet, seg: Segment)
    requires n !in k.semKeys && n !in k.shmKeys && semid !in k.sets && shmid !in k.segments
    ensures Remove(Create(k, n, semid, shmid, set_, seg), n, semid, shmid) == k
  {
    NewKeyRemoved(k.semKeys, n, semid);
    NewKeyRemoved(k.shmKeys, n, shmid);
    NewKeyRemoved(k.sets, semid, set_);
    NewKeyRemoved(k.segments, shmid, seg);
  }

  lemma NewKeyRemoved<K, V>(m: map<K, V>, key: K, v: V)
    requires key !in m
    ensures m[key := v] - {key} == m
  {
  }

  /** The objects are the same without a name, whatever has been written into the objects of that name. */
  lemma RemovePut(k: Ipc, n: string, semid: int, shmid: int, set_: SemSet, seg: Segment)
    ensures Remove(Put(k, semid, shmid, set_, seg), n, semid, shmid) == Remove(k, n, semid, shmid)
  {
    KeyRemoved(k.sets, semid, set_);
    KeyRemoved(k.segments, shmid, seg);
  }

  /** A new name opened: objects and handles agree. */
  lemma OpenedNew(t: Table, k: Ipc, sems: map<Handle, Sem>, nextId: int, e: Event, mode: nat, k': Ipc, sem: Sem)
    requires Stored(t, k) && Referred(t, k, sems) && e.Opened? && Unused(k, sems, nextId, e.h.address) && e.name !in t
    requires sem.semid !in k.sets && sem.shmid !in k.segments && sem.name == e.name
    requires k' == Create(k, e.name, sem.semid, sem.shmid, SemSet(e.name, e.value), NewSegment(e.name, mode))
    ensures Legal(t, e) && Stored(Effect(t, e), k') && Referred(Effect(t, e), k', sems[e.h := sem])
  {
    hide Referred, Stored, Unused, Legal, Effect, Create;
    StoredFacts(t, k, e.name);
    CreateKeys(k, e.name, sem.semid, sem.shmid, SemSet(e.name, e.value), NewSegment(e.name, mode));
    ReferOpen(t, k, sems, nextId, e, k', sem);
    OpenNew(t, k, e, sem.semid, sem.shmid, mode);
  }

  /** And an existing one. */
  lemma OpenedOld(t: Table, k: Ipc, sems: map<Handle, Sem>, nextId: int, e: Event, seg: Segment, k': Ipc, sem: Sem)
    requires Stored(t, k) && Referred(t, k, sems) && e.Opened? && Unused(k, sems, nextId, e.h.address)
    requires e.name in t && !t[e.name].unlinked && seg.key == e.name
    requires e.name in k.semKeys && e.name in k.shmKeys && k.semKeys[e.name] in k.sets
    requires k.shmKeys[e.name] in k.segments
    requires seg.data == var d := k.segments[k.shmKeys[e.name]].data; d.(refCount := d.refCount + 1)
    requires sem.semid == k.semKeys[e.name] && sem.shmid == k.shmKeys[e.name] && sem.name == e.name
    requires k' == Put(k, sem.semid, sem.shmid, k.sets[sem.semid], seg)
    ensures Legal(t, e) && Stored(Effect(t, e), k') && Referred(Effect(t, e), k', sems[e.h := sem])
    ensures Unused(k', sems, nextId, e.h.address)
  {
    hide Referred, Stored, Unused, Legal, Effect, Put;
    PutKeys(k, sem.semid, sem.shmid, k.sets[sem.semid], seg);
    KeyKept(k.semKeys, e.name);
    KeyKept(k.shmKeys, e.name);
    ReferOpen(t, k, sems, nextId, e, k', sem);
    OpenOld(t, k, e, k.sets[sem.semid], seg);
    UnusedPut(k, sems, nextId, e.h.address, sem.semid, sem.shmid, k.sets[sem.semid], seg);
  }

  lemma KeyKept<K, V>(m: map<K, V>, key: K)
    requires key in m
    ensures m[key := m[key]] == m
  {
  }

  lemma KeyRemoved<K, V>(m: map<K, V>, key: K, v: V)
    ensures m[key := v] - {key} == m - {key}
  {
  }

  lemma RemovedKeys(k: Ipc, n: string, semid: int, shmid: int)
    ensures var k' := Remove(k, n, semid, shmid);
            && k'.semKeys == k.semKeys - {n} && k'.shmKeys == k.shmKeys - {n}
            && k'.sets.Keys <= k.sets.Keys && k'.segments.Keys <= k.segments.Keys
            && semid !in k'.sets && shmid !in k'.segments
  {
  }

  lemma Initialised(k: Ipc, n: string, semid: int, shmid: int, set_: SemSet, seg: Segment, set': SemSet, seg': Segment)
    ensures Put(Create(k, n, semid, shmid, set_, seg), semid, shmid, set', seg')
            == Create(k, n, semid, shmid, set', seg')
  {
  }

  lemma PutKeys(k: Ipc, semid: int, shmid: int, set_: SemSet, seg: Segment)
    ensures var k' := Put(k, semid, shmid, set_, seg);
            && k'.semKeys == k.semKeys && k'.shmKeys == k.shmKeys
            && k'.sets.Keys == k.sets.Keys + {semid} && k'.segments.Keys == k.segments.Keys + {shmid}
  {
  }

  lemma CreateKeys(k: Ipc, n: string, semid: int, shmid: int, set_: SemSet, seg: Segment)
    ensures Create(k, n, semid, shmid, set_, seg).semKeys == k.semKeys[n := semid]
    ensures Create(k, n, semid, shmid, set_, seg).shmKeys == k.shmKeys[n := shmid]
  {
  }

  lemma StoredFacts(t: Table, k: Ipc, n: string)
    requires Stored(t, k)
    ensures n in t <==> n in k.semKeys
    ensures n in t <==> n in k.shmKeys
    ensures n in t ==>
              k.semKeys[n] in k.sets && k.shmKeys[n] in k.segments
              && Holds(n, t[n], k.sets[k.semKeys[n]], k.segments[k.shmKeys[n]])
  {
  }

  lemma ReferredFacts(t: Table, k: Ipc, sems: map<Handle, Sem>, h: Handle)
    requires Referred(t, k, sems) && h in sems
    ensures var sem := sems[h];
            sem.name in t && h in t[sem.name].opens && sem.name in k.semKeys && sem.name in k.shmKeys
            && k.semKeys[sem.name] == sem.semid && k.shmKeys[sem.name] == sem.shmid
  {
  }

  lemma CloseStored(t: Table, k: Ipc, sems: map<Handle, Sem>, e: Event, seg: Segment, k': Ipc)
    requires Stored(t, k) && Referred(t, k, sems) && e.Closed? && e.h in sems && sems[e.h].name == e.name && e.name in t
    requires e.name in k.semKeys && e.name in k.shmKeys && k.semKeys[e.name] in k.sets
    requires k.shmKeys[e.name] in k.segments
    requires seg.key == e.name
    requires seg.data == var d := k.segments[k.shmKeys[e.name]].data; d.(refCount := d.refCount - 1)
    requires var semid, shmid := k.semKeys[e.name], k.shmKeys[e.name];
             var k1 := Put(k, semid, shmid, k.sets[semid], seg);
             k' == if seg.data.refCount == 0 && seg.data.unlinked then Remove(k1, e.name, semid, shmid) else k1
    ensures Legal(t, e) && Stored(Effect(t, e), k') && Referred(Effect(t, e), k', sems - {e.h})
    ensures k'.sets.Keys <= k.sets.Keys && k'.segments.Keys <= k.segments.Keys
    ensures var gone := t[e.name].unlinked && t[e.name].opens == {e.h};
            (k.semKeys[e.name] in k'.sets <==> !gone) && (k.shmKeys[e.name] in k'.segments <==> !gone)
  {
    hide Stored, Referred, Put, Remove;
    var s := t[e.name];
    var semid, shmid := k.semKeys[e.name], k.shmKeys[e.name];
    ReferredFacts(t, k, sems, e.h);
    StoredFacts(t, k, e.name);
    LastHandle(s.opens, e.h);
    RemovePut(k, e.name, semid, shmid, k.sets[semid], seg);
    RemovedKeys(k, e.name, semid, shmid);
    PutKeys(k, semid, shmid, k.sets[semid], seg);
    if s.unlinked && s.opens == {e.h} {
      StoreRemove(t, k, e.name);
    } else {
      StorePut(t, k, e.name, s.(opens := s.opens - {e.h}), k.sets[semid], seg);
    }
    ReferClose(t, k, sems, e, k');
  }

  lemma LastHandle(opens: set<Handle>, h: Handle)
    requires h in opens
    ensures |opens - {h}| == |opens| - 1 && (opens == {h} <==> |opens| == 1)
  {
    assert opens == (opens - {h}) + {h};
    if |opens| == 1 { assert opens - {h} == {}; }
  }

  lemma UnlinkStored(t: Table, k: Ipc, sems: map<Handle, Sem>, e: Event, seg: Segment, k': Ipc)
    requires Stored(t, k) && Referred(t, k, sems) && e.Unlinked? && e.name in t
    requires e.name in k.semKeys && e.name in k.shmKeys && k.semKeys[e.name] in k.sets
    requires k.shmKeys[e.name] in k.segments
    requires seg.key == e.name && seg.data == k.segments[k.shmKeys[e.name]].data.(unlinked := true)
    requires var semid, shmid := k.semKeys[e.name], k.shmKeys[e.name];
             var k1 := Put(k, semid, shmid, k.sets[semid], seg);
             k' == if seg.data.refCount == 0 then Remove(k1, e.name, semid, shmid) else k1
    ensures Legal(t, e) && Stored(Effect(t, e), k') && Referred(Effect(t, e), k', sems)
    ensures k'.sets.Keys <= k.sets.Keys && k'.segments.Keys <= k.segments.Keys
    ensures (k.semKeys[e.name] in k'.sets <==> t[e.name].opens != {})
    ensures (k.shmKeys[e.name] in k'.segments <==> t[e.name].opens != {})
  {
    hide Stored, Referred, Put, Remove;
    var s := t[e.name];
    var semid, shmid := k.semKeys[e.name], k.shmKeys[e.name];
    StoredFacts(t, k, e.name);
    RemovePut(k, e.name, semid, shmid, k.sets[semid], seg);
    RemovedKeys(k, e.name, semid, shmid);
    PutKeys(k, semid, shmid, k.sets[semid], seg);
    if s.opens == {} {
      StoreRemove(t, k, e.name);
      ReferNone(t, k, sems, e.name, k');
    } else {
      StorePut(t, k, e.name, s.(unlinked := true), k.sets[semid], seg);
      ReferSame(t, k, sems, e.name, s.(unlinked := true), k');
    }
  }

  lemma OperateStored(t: Table, k: Ipc, sems: map<Handle, Sem>, h: Handle, e: Event, k': Ipc)
    requires Stored(t, k) && Referred(t, k, sems) && h in sems && sems[h].semid in k.sets
    requires e in {Waited(sems[h].name), Posted(sems[h].name)}
    requires var s := k.sets[sems[h].semid];
             s.value + Change(e, sems[h].name) >= 0
             && k' == k.(sets := k.sets[sems[h].semid := s.(value := s.value + Change(e, sems[h].name))])
    ensures Legal(t, e) && Stored(Effect(t, e), k') && Referred(Effect(t, e), k', sems)
  {
    hide Stored, Referred;
    ReferredFacts(t, k, sems, h);
    var n, sem := sems[h].name, sems[h];
    StoredFacts(t, k, n);
    var s := t[n].(value := t[n].value + Change(e, n));
    StorePut(t, k, n, s, SemSet(n, s.value), k.segments[sem.shmid]);
    assert k.segments[sem.shmid := k.segments[sem.shmid]] == k.segments;
    ReferSame(t, k, sems, n, s, k');
  }

  lemma UnusedLess(k: Ipc, sems: map<Handle, Sem>, nextId: int, nextAddress: int, h: Handle, k': Ipc)
    requires Unused(k, sems, nextId, nextAddress) && k'.sets.Keys <= k.sets.Keys && k'.segments.Keys <= k.segments.Keys
    ensures Unused(k', sems - {h}, nextId, nextAddress)
  {
  }

  lemma UnusedKept(k: Ipc, sems: map<Handle, Sem>, nextId: int, nextAddress: int, k': Ipc)
    requires Unused(k, sems, nextId, nextAddress) && k'.sets.Keys <= k.sets.Keys && k'.segments.Keys <= k.segments.Keys
    ensures Unused(k', sems, nextId, nextAddress)
  {
  }

  // ---------------------------------------------------------------- the system

  class SemSystem {
    const semvmx: nat
    var ipc: Ipc
    var sems: map<Handle, Sem>
    var nextId: int
    var nextAddress: int
    ghost var trace: seq<Event>

    /** The table that the successful calls so far amount to. */
    ghost function Contents(): Table
      reads this
      requires IsHistory(trace)
    {
      Replay(trace)
    }

    ghost predicate Valid()
      reads this
    {
      && IsHistory(trace) && Stored(Contents(), ipc) && Referred(Contents(), ipc, sems)
      && Unused(ipc, sems, nextId, nextAddress)
    }

    constructor (semvmx: nat)
      ensures Valid() && trace == [] && this.semvmx == semvmx
    {
      this.semvmx := semvmx;
      ipc, nextId := Ipc(map[], map[], map[], map[]), 0;
      sems, nextAddress, trace := map[], 1, [];
    }

    /** Makes the two objects of a new name; on ERANGE from SETVAL they are removed again. */
    method CreateObjects(n: string, mode: nat, value: nat) returns (status: Status, semid: int, shmid: int)
      requires Valid() && n !in Contents()
      modifies this`ipc, this`nextId
      ensures status == if value > semvmx then Fails(ERANGE) else Success
      ensures status != Success ==> Valid() && ipc == old(ipc)
      ensures status == Success ==>
                && ipc == Create(old(ipc), n, semid, shmid, SemSet(n, value), NewSegment(n, mode))
                && semid !in old(ipc).sets && shmid !in old(ipc).segments && Unused(ipc, sems, nextId, nextAddress)
    {
      hide Stored, Referred, Unused, Create, Put, Remove, IsHistory, Replay;
      StoredFacts(Contents(), ipc, n);
      var empty, blank := SemSet(n, 0), Segment(n, Metadata(0, false, 0, 0, ""));
      var set_, seg := SemSet(n, value), NewSegment(n, mode);
      UnusedCreate(ipc, sems, nextId, nextAddress, n, set_, seg);
      Undone(ipc, n, nextId, nextId + 1, empty, blank);
      Initialised(ipc, n, nextId, nextId + 1, empty, blank, set_, seg);
      semid, shmid := nextId, nextId + 1;
      nextId := nextId + 2;
      ipc := Create(ipc, n, semid, shmid, empty, blank);
      if value > semvmx {
        ipc := Remove(ipc, n, semid, shmid);
        return Fails(ERANGE), semid, shmid;
      }
      ipc := Put(ipc, semid, shmid, set_, seg);
      status := Success;
    }

    /** The objects are as after the event `e`, which opens a handle on `sem`; the handle itself is still to be
        registered. */
    ghost predicate Ready(e: Event, sem: Sem)
      reads this
      requires IsHistory(trace)
    {
      && e.Opened? && e.h.address == nextAddress && Legal(Contents(), e)
      && Stored(Effect(Contents(), e), ipc) && Referred(Effect(Contents(), e), ipc, sems[e.h := sem])
      && Unused(ipc, sems, nextId, nextAddress)
    }

    /** The part of sem_open() for a name that is not there, with O_CREAT. */
    method OpenNewName(n: string, mode: nat, value: nat, ghost e: Event) returns (status: Status, sem: Sem)
      requires Valid() && n !in Contents() && e.Opened? && e.name == n && e.value == value
      requires e.h.address == nextAddress
      modifies this`ipc, this`nextId
      ensures status == if value > semvmx then Fails(ERANGE) else Success
      ensures status != Success ==> Valid() && ipc == old(ipc)
      ensures status == Success ==> Ready(e, sem) && Legal(Contents(), e) && sem.name == n
    {
      hide Referred, Stored, Unused, Legal, Effect, IsHistory, Replay, Create;
      ghost var t, k, nextId0 := Contents(), ipc, nextId;
      StoredFacts(t, k, n);
      var semid, shmid;
      status, semid, shmid := CreateObjects(n, mode, value);
      sem := Sem(semid, shmid, n, 1);
      if status == Success {
        OpenedNew(t, k, sems, nextId0, e, mode, ipc, sem);
      }
    }

    /** The part of sem_open() for a name that is there, without O_EXCL. */
    method OpenOldName(n: string, ghost e: Event) returns (status: Status, sem: Sem)
      requires Valid() && n in Contents() && e.Opened? && e.name == n && e.h.address == nextAddress
      modifies this`ipc
      ensures status == if Contents()[n].unlinked then Fails(ENOENT) else Success
      ensures status != Success ==> ipc == old(ipc)
      ensures status == Success ==> Ready(e, sem) && Legal(Contents(), e) && sem.name == n
    {
      hide Referred, Stored, Unused, Legal, Effect, IsHistory, Replay, Put;
      ghost var t, k := Contents(), ipc;
      StoredFacts(t, k, n);
      sem := Sem(ipc.semKeys[n], ipc.shmKeys[n], n, 1);
      var seg := ipc.segments[sem.shmid];
      if seg.data.initialized != SEM_MAGIC {
        return Fails(EINVAL), sem;
      }
      if seg.data.unlinked {
        return Fails(ENOENT), sem;
      }
      seg := seg.(data := seg.data.(refCount := seg.data.refCount + 1));
      ipc := Put(ipc, sem.semid, sem.shmid, ipc.sets[sem.semid], seg);
      OpenedOld(t, k, sems, nextId, e, seg, ipc, sem);
      status := Success;
    }

    /** Hands out the sem_t. */
    method Register(process: nat, sem: Sem, ghost e: Event) returns (h: Handle)
      requires IsHistory(trace) && Ready(e, sem) && e.h.process == process
      modifies this
      ensures Valid() && h == e.h && h.address > 0 && h !in old(sems) && trace == old(trace) + [e]
      ensures sems == old(sems)[h := sem] && Contents() == old(Effect(Contents(), e))
    {
      hide Referred, Stored, Unused, Legal, Effect, IsHistory, Replay;
      UnusedNext(ipc, sems, nextId, e.h, sem);
      Extend(trace, e);
      EffectIs(Contents(), e);
      h := Handle(process, nextAddress);
      nextAddress := nextAddress + 1;
      sems := sems[h := sem];
      trace := trace + [e];
    }

    /** sem_open() in a process; SEM_FAILED is -1. `value` and `mode` are the arguments that come with O_CREAT. */
    method SemOpen(process: nat, name: string, create: bool, excl: bool, mode: nat, value: nat)
        returns (status: Status, h: Handle)
      requires Valid()
      modifies this
      ensures Valid()
      ensures name == "" || name[0] != '/' ==> status == Fails(EINVAL)
      ensures name != "" && name[0] == '/' && |name| - 1 >= 255 ==> status == Fails(ENAMETOOLONG)
      ensures name != "" && name[0] == '/' && |name| <= 255 ==>
                var t, n := old(Contents()), name[1..];
                status == if create && value > 0x7fff_ffff then Fails(EINVAL)
                          else if n in t && excl then Fails(EEXIST)
                          else if n in t then (if t[n].unlinked then Fails(ENOENT) else Success)
                          else if !create then Fails(ENOENT)
                          else if value > semvmx then Fails(ERANGE)
                          else Success
      ensures name != "" && name[0] == '/' && |name| <= 255 && !(create && value > 0x7fff_ffff) ==>
                status == CodeOpen(old(Contents()), name[1..], create, excl, value, semvmx)
      ensures status == Success ==> h.process == process && h.address > 0 && h !in old(sems)
      ensures status == Success ==>
                var t, n := old(Contents()), name[1..];
                && trace == old(trace) + [Opened(n, h, value)]
                && sems.Keys == old(sems).Keys + {h} && sems[h].name == n
                && Contents() == t[n := if n in t then t[n].(opens := t[n].opens + {h})
                                        else Semaphore(value, false, {h})]
      ensures status != Success ==> h == Handle(process, -1)
      ensures status != Success ==> ipc == old(ipc) && sems == old(sems) && trace == old(trace)
    {
      hide Referred, Stored, Unused, Legal, Effect, IsHistory, Replay, Ready;
      if name == "" || name[0] != '/' {
        return Fails(EINVAL), Handle(process, -1);
      }
      var n := name[1..];
      if |n| >= NAME_MAX {
        return Fails(ENAMETOOLONG), Handle(process, -1);
      }
      if create && value > SEM_VALUE_MAX {
        return Fails(EINVAL), Handle(process, -1);
      }
      ghost var e := Opened(n, Handle(process, nextAddress), value);
      StoredFacts(Contents(), ipc, n);
      var sem;
      if n !in ipc.semKeys || n !in ipc.shmKeys {
        if !create {
          return Fails(ENOENT), Handle(process, -1);
        }
        status, sem := OpenNewName(n, mode, value, e);
      } else {
        if excl {
          return Fails(EEXIST), Handle(process, -1);
        }
        status, sem := OpenOldName(n, e);
      }
      if status != Success {
        return status, Handle(process, -1);
      }
      EffectIs(Contents(), e);
      h := Register(process, sem, e);
    }

    /** An open handle refers to the objects of its name. */
    ghost predicate Open(h: Handle)
      reads this
      requires IsHistory(trace)
    {
      h in sems && sems[h].name in Contents() && h in Contents()[sems[h].name].opens
    }

    /** sem_close(): NULL is 0 and SEM_FAILED is -1; any other pointer must be an open handle. The objects go
        exactly if the name is unlinked and this was its last handle. */
    method SemClose(h: Handle) returns (status: Status)
      requires Valid() && (h.address > 0 ==> h in sems)
      modifies this
      ensures Valid()
      ensures h.address <= 0 ==> status == Fails(EINVAL) && ipc == old(ipc) && sems == old(sems) && trace == old(trace)
      ensures h.address > 0 ==> status == Success && sems == old(sems) - {h}
      ensures h.address > 0 ==> trace == old(trace) + [Closed(old(sems)[h].name, h)]
      ensures h.address > 0 ==>
                var t, n := old(Contents()), old(sems)[h].name;
                && n in t && h in t[n].opens
                && Contents() == if t[n].unlinked && t[n].opens == {h} then t - {n}
                                 else t[n := t[n].(opens := t[n].opens - {h})]
      ensures h.address > 0 ==>
                var sem := old(sems)[h];
                var s := old(Contents())[sem.name];
                if s.unlinked && s.opens == {h} then sem.semid !in ipc.sets && sem.shmid !in ipc.segments
                else sem.semid in ipc.sets && sem.shmid in ipc.segments
    {
      hide Referred, Stored, Unused, Legal, Effect, Put, Remove, IsHistory, Replay;
      if h.address <= 0 {
        return Fails(EINVAL);
      }
      var sem := sems[h];
      ghost var t, k, e := Contents(), ipc, Closed(sem.name, h);
      ReferredFacts(t, k, sems, h);
      StoredFacts(t, k, sem.name);
      var seg := ipc.segments[sem.shmid];
      seg := seg.(data := seg.data.(refCount := seg.data.refCount - 1));
      ipc := Put(ipc, sem.semid, sem.shmid, ipc.sets[sem.semid], seg);
      if seg.data.refCount == 0 && seg.data.unlinked {
        ipc := Remove(ipc, sem.name, sem.semid, sem.shmid);
      }
      CloseStored(t, k, sems, e, seg, ipc);
      UnusedLess(k, sems, nextId, nextAddress, h, ipc);
      sems := sems - {h};
      Extend(trace, e);
      EffectIs(Contents(), e);
      trace := trace + [e];
      status := Success;
    }

    /** sem_unlink(); it also succeeds on a name that is unlinked already but still open. */
    method SemUnlink(name: string) returns (status: Status)
      requires Valid()
      modifies this
      ensures Valid() && sems == old(sems)
      ensures name == "" || name[0] != '/' ==> status == Fails(EINVAL)
      ensures name != "" && name[0] == '/' && |name| - 1 >= 255 ==> status == Fails(ENAMETOOLONG)
      ensures name != "" && name[0] == '/' && |name| <= 255 ==>
                && status == CodeUnlink(old(Contents()), name[1..])
                && status == if name[1..] in old(Contents()) then Success else Fails(ENOENT)
      ensures status == Success ==>
                var t, n := old(Contents()), name[1..];
                && trace == old(trace) + [Unlinked(n)] && n in t
                && Contents() == if t[n].opens == {} then t - {n} else t[n := t[n].(unlinked := true)]
      ensures status != Success ==> ipc == old(ipc) && trace == old(trace)
      ensures status == Success ==>
                var n := name[1..];
                n in old(ipc).semKeys && n in old(ipc).shmKeys
                && if old(Contents())[n].opens == {}
                   then old(ipc).semKeys[n] !in ipc.sets && old(ipc).shmKeys[n] !in ipc.segments
                   else old(ipc).semKeys[n] in ipc.sets && old(ipc).shmKeys[n] in ipc.segments
    {
      hide Referred, Stored, Unused, Legal, Effect, Put, Remove, IsHistory, Replay;
      if name == "" || name[0] != '/' {
        return Fails(EINVAL);
      }
      var n := name[1..];
      if |n| >= NAME_MAX {
        return Fails(ENAMETOOLONG);
      }
      ghost var t, k, e := Contents(), ipc, Unlinked(n);
      StoredFacts(t, k, n);
      if n !in ipc.semKeys || n !in ipc.shmKeys {
        return Fails(ENOENT);
      }
      var semid, shmid := ipc.semKeys[n], ipc.shmKeys[n];
      var seg := ipc.segments[shmid];
      if seg.data.initialized != SEM_MAGIC {
        return Fails(ENOENT);
      }
      seg := seg.(data := seg.data.(unlinked := true));
      ipc := Put(ipc, semid, shmid, ipc.sets[semid], seg);
      if seg.data.refCount == 0 {
        ipc := Remove(ipc, n, semid, shmid);
      }
      UnlinkStored(t, k, sems, e, seg, ipc);
      UnusedKept(k, sems, nextId, nextAddress, ipc);
      Extend(trace, e);
      EffectIs(Contents(), e);
      trace := trace + [e];
      status := Success;
    }

    /** semop() with one operation of +1 or -1 on the semaphore of an open handle. */
    method Operate(h: Handle, delta: int, e: Event)
      requires Valid() && h in sems && e in {Waited(sems[h].name), Posted(sems[h].name)}
      requires delta == Change(e, sems[h].name)
      requires sems[h].semid in ipc.sets && ipc.sets[sems[h].semid].value + delta >= 0
      modifies this`ipc, this`trace
      ensures Valid() && trace == old(trace) + [e]
      ensures var t, n := old(Contents()), sems[h].name;
              n in t && t[n].value + delta >= 0 && Contents() == t[n := t[n].(value := t[n].value + delta)]
    {
      hide Referred, Stored, Unused, Effect, IsHistory, Replay;
      ghost var t, k := Contents(), ipc;
      var sem := sems[h];
      ReferredFacts(t, k, sems, h);
      StoredFacts(t, k, sem.name);
      var set_ := ipc.sets[sem.semid];
      ipc := ipc.(sets := ipc.sets[sem.semid := set_.(value := set_.value + delta)]);
      OperateStored(t, k, sems, h, e, ipc);
      UnusedKept(k, sems, nextId, nextAddress, ipc);
      Extend(trace, e);
      EffectIs(Contents(), e);
      trace := trace + [e];
    }

    /** sem_wait() with `nowait` false, sem_trywait() with it true. */
    method SemWait(h: Handle, nowait: bool) returns (status: Status)
      requires Valid() && (h.address > 0 ==> h in sems)
      modifies this
      ensures Valid() && sems == old(sems)
      ensures h.address <= 0 ==> status == Fails(EINVAL)
      ensures h.address > 0 ==> Open(h) && old(Open(h))
      ensures h.address > 0 ==>
                status == if old(Contents())[sems[h].name].value > 0 then Success
                          else if nowait then Fails(EAGAIN)
                          else Blocks
      ensures status == Success ==>
                var t, n := old(Contents()), sems[h].name;
                trace == old(trace) + [Waited(n)] && n in t && t[n].value - 1 >= 0
                && Contents() == t[n := t[n].(value := t[n].value - 1)]
      ensures status != Success ==> ipc == old(ipc) && trace == old(trace)
    {
      hide Referred, Stored, Unused, Effect, IsHistory, Replay;
      if h.address <= 0 {
        return Fails(EINVAL);
      }
      ReferredFacts(Contents(), ipc, sems, h);
      StoredFacts(Contents(), ipc, sems[h].name);
      if ipc.sets[sems[h].semid].value == 0 {
        return if nowait then Fails(EAGAIN) else Blocks;
      }
      Operate(h, -1, Waited(sems[h].name));
      ReferredFacts(Contents(), ipc, sems, h);
      status := Success;
    }

    /** sem_timedwait() up to the semop() that blocks. `now` is the clock; `Blocks` comes with the alarm that
        has been set. */
    method SemTimedWait(h: Handle, absTimeout: Time, now: Time) returns (status: Status, alarm: int)
      requires Valid() && (h.address > 0 ==> h in sems) && Normal(now)
      modifies this
      ensures Valid() && sems == old(sems)
      ensures h.address <= 0 ==> status == Fails(EINVAL)
      ensures h.address > 0 ==>
                && old(Open(h))
                && var value := old(Contents())[sems[h].name].value;
                && status == CodeTimedWait(value, now, absTimeout)
                && status == if absTimeout.nsec < 0 || absTimeout.nsec >= 1_000_000_000 then Fails(EINVAL)
                             else if now.sec > absTimeout.sec
                                     || (now.sec == absTimeout.sec && now.nsec >= absTimeout.nsec)
                             then Fails(ETIMEDOUT)
                             else if value > 0 then Success
                             else Blocks
      ensures status == Success ==>
                var t, n := old(Contents()), sems[h].name;
                trace == old(trace) + [Waited(n)] && n in t && t[n].value - 1 >= 0
                && Contents() == t[n := t[n].(value := t[n].value - 1)]
      ensures status != Success ==> ipc == old(ipc) && trace == old(trace)
      ensures status == Blocks ==>
                && alarm >= 1
                && 0 <= 1_000_000_000 * (now.sec + alarm - absTimeout.sec) + now.nsec - absTimeout.nsec < 1_000_000_000
    {
      hide Stored, Referred, Unused, Effect, IsHistory, Replay, AlarmSeconds;
      alarm := 0;
      if h.address <= 0 {
        return Fails(EINVAL), 0;
      }
      ReferredFacts(Contents(), ipc, sems, h);
      StoredFacts(Contents(), ipc, sems[h].name);
      if absTimeout.nsec < 0 || absTimeout.nsec >= SECOND {
        return Fails(EINVAL), 0;
      }
      if now.sec > absTimeout.sec || (now.sec == absTimeout.sec && now.nsec >= absTimeout.nsec) {
        return Fails(ETIMEDOUT), 0;
      }
      status := SemWait(h, true);
      if status == Fails(EAGAIN) {
        AlarmCoversDeadline(now, absTimeout);
        return Blocks, AlarmSeconds(now, absTimeout);
      }
    }

    /** The rest of sem_timedwait() after its blocking semop() has been interrupted: one more attempt if there
        is time left, and ETIMEDOUT otherwise, also when the attempt fails. */
    method SemTimedWaitInterrupted(h: Handle, absTimeout: Time, now: Time) returns (status: Status)
      requires Valid() && h.address > 0 && h in sems && Normal(now) && Normal(absTimeout)
      modifies this
      ensures Valid() && sems == old(sems) && old(Open(h))
      ensures var value := old(Contents())[sems[h].name].value;
              && status == CodeInterrupted(value, now, absTimeout)
              && status == if && (now.sec < absTimeout.sec || (now.sec == absTimeout.sec && now.nsec < absTimeout.nsec))
                              && value > 0
                           then Success else Fails(ETIMEDOUT)
      ensures status == Success ==>
                var t, n := old(Contents()), sems[h].name;
                trace == old(trace) + [Waited(n)] && n in t && t[n].value - 1 >= 0
                && Contents() == t[n := t[n].(value := t[n].value - 1)]
      ensures status != Success ==> ipc == old(ipc) && trace == old(trace)
    {
      hide Stored, Referred, Unused, Effect, IsHistory, Replay;
      ReferredFacts(Contents(), ipc, sems, h);
      if now.sec > absTimeout.sec || (now.sec == absTimeout.sec && now.nsec >= absTimeout.nsec) {
        return Fails(ETIMEDOUT);
      }
      status := SemWait(h, true);
      if status == Fails(EAGAIN) {
        status := Fails(ETIMEDOUT);
      }
    }

    /** sem_post() */
    method SemPost(h: Handle) returns (status: Status)
      requires Valid() && (h.address > 0 ==> h in sems)
      modifies this
      ensures Valid() && sems == old(sems)
      ensures h.address <= 0 ==> status == Fails(EINVAL)
      ensures h.address > 0 ==>
                && old(Open(h))
                && status == if old(Contents())[sems[h].name].value < semvmx then Success else Fails(ERANGE)
      ensures status == Success ==>
                var t, n := old(Contents()), sems[h].name;
                trace == old(trace) + [Posted(n)] && n in t && t[n].value + 1 >= 0
                && Contents() == t[n := t[n].(value := t[n].value + 1)]
      ensures status != Success ==> ipc == old(ipc) && trace == old(trace)
    {
      hide Referred, Stored, Unused, Effect, IsHistory, Replay;
      if h.address <= 0 {
        return Fails(EINVAL);
      }
      ReferredFacts(Contents(), ipc, sems, h);
      StoredFacts(Contents(), ipc, sems[h].name);
      if ipc.sets[sems[h].semid].value >= semvmx {
        return Fails(ERANGE);
      }
      Operate(h, 1, Posted(sems[h].name));
      status := Success;
    }

    /** sem_getvalue() */
    method SemGetValue(h: Handle) returns (status: Status, sval: int)
      requires Valid() && (h.address > 0 ==> h in sems)
      ensures h.address <= 0 ==> status == Fails(EINVAL)
      ensures h.address > 0 ==> Open(h) && status == Success && sval == Contents()[sems[h].name].value
    {
      if h.address <= 0 {
        return Fails(EINVAL), 0;
      }
      ReferredFacts(Contents(), ipc, sems, h);
      StoredFacts(Contents(), ipc, sems[h].name);
      return Success, ipc.sets[sems[h].semid].value;
    }
  }

  /** A process that opens a name twice has two addresses for one semaphore, where POSIX has one. */
  method OpenTwice(process: nat) returns (sys: SemSystem, first: Handle, second: Handle)
    ensures sys.Valid() && {first, second} <= OpenHandles(sys.trace, "a")
    ensures first != second && first.process == second.process == process
    ensures !PosixMayOpen(Effect(map[], Opened("a", first, 1)), "a", false, false, second, Success)
  {
    hide Stored, Referred, Unused, Replay, IsHistory, OpenHandles, PosixMayOpen;
    sys := new SemSystem(32767);
    NothingYet();
    var status;
    status, first := sys.SemOpen(process, "/a", true, false, 0, 1);
    assert "/a"[1..] == "a" && CheckName("/a") == Success;
    Extend([], Opened("a", first, 1));
    status, second := sys.SemOpen(process, "/a", false, false, 0, 0);
    OpenedTwice(Opened("a", first, 1), Opened("a", second, 0));
  }

  lemma NothingYet()
    ensures IsHistory([]) && Replay([]) == map[]
  {
  }

  lemma OpenedTwice(e: Event, e2: Event)
    requires e.Opened? && e2.Opened? && e.name == e2.name && IsHistory([] + [e] + [e2])
    ensures e.h != e2.h && {e.h, e2.h} <= OpenHandles([] + [e] + [e2], e.name)
    ensures e.h.process == e2.h.process ==> !PosixMayOpen(Effect(map[], e), e.name, false, false, e2.h, Success)
  {
    var es := [] + [e] + [e2];
    assert es[..1] == [e] && [e][..0] == [] && es[1] == e2 && [e][0] == e;
    assert Replay([e]) == Effect(map[], e);
  }

  /** Over any sequence of calls: the objects of a name are there exactly as long as it is linked or has open
      handles, by the events alone; the stored count is the number of those handles; and every open handle
      finds its objects, with the value the events add up to. */
  lemma ObjectsFollowHistory(sys: SemSystem, n: string)
    requires sys.Valid()
    ensures n in sys.ipc.semKeys <==> Linked(sys.trace, n) || OpenHandles(sys.trace, n) != {}
    ensures n in sys.ipc.shmKeys <==> n in sys.ipc.semKeys
    ensures n in sys.ipc.semKeys ==>
              sys.ipc.semKeys[n] in sys.ipc.sets && sys.ipc.shmKeys[n] in sys.ipc.segments
              && sys.ipc.segments[sys.ipc.shmKeys[n]].data.refCount == |OpenHandles(sys.trace, n)|
              && sys.ipc.segments[sys.ipc.shmKeys[n]].data.unlinked == !Linked(sys.trace, n)
    ensures forall h | h in OpenHandles(sys.trace, n) ::
              h in sys.sems && sys.sems[h].name == n
              && sys.sems[h].semid in sys.ipc.sets && sys.sems[h].shmid in sys.ipc.segments
              && sys.ipc.sets[sys.sems[h].semid] == SemSet(n, sys.Contents()[n].value)
  {
    hide Replay, IsHistory, OpenHandles, Linked;
    Lifecycle(sys.trace, n);
    StoredFacts(sys.Contents(), sys.ipc, n);
  }
}
