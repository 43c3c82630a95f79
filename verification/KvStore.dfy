/** The in-memory key/value store of chapter_59/kv_store.c: an array of records against a map from keys to
    values and owners. The mutex makes each operation one step, so what holds over every sequence of
    operations holds for concurrent clients. */
module KvStore {

  const MAX_RECORDS := 1024

  /** struct sockaddr_storage; `Other` is any family but AF_INET and AF_INET6. */
  datatype Address = Inet(ip: nat, port: nat) | Inet6(ip6: seq<nat>, port6: nat) | Other(family: nat)

  datatype Status = OK | FULL | NOTFOUND | NOMEM | PERM

  /** struct kv_record: the key bytes and then the value bytes in `data`. */
  datatype Record = Record(keyLen: nat, valueLen: nat, clientAddr: Address, data: string)

  datatype Entry = Entry(value: string, owner: Address)

  /** same_ip_address(): ports are ignored; two addresses of an unsupported family never match. */
  predicate SameIp(a: Address, b: Address) {
    match (a, b)
    case (Inet(x, _), Inet(y, _)) => x == y
    case (Inet6(x, _), Inet6(y, _)) => x == y
    case _ => false
  }

  // ---------------------------------------------------------------- the map

  type Contents = map<string, Entry>

  datatype Request = Set(key: string, value: string, client: Address, allocates: bool)
                   | Get(key: string)
                   | Delete(key: string, client: Address)

  function Answer(m: Contents, r: Request): Status {
    match r
    case Set(k, _, c, allocates) =>
      if k in m && !SameIp(c, m[k].owner) then PERM
      else if k !in m && |m| >= MAX_RECORDS then FULL
      else if !allocates then NOMEM
      else OK
    case Get(k) => if k in m then OK else NOTFOUND
    case Delete(k, c) => if k !in m then NOTFOUND else if !SameIp(c, m[k].owner) then PERM else OK
  }

  /** A request that does not get OK changes nothing. */
  function After(m: Contents, r: Request): Contents {
    if Answer(m, r) != OK then m
    else match r
      case Set(k, v, c, _) => m[k := Entry(v, c)]
      case Get(_) => m
      case Delete(k, _) => m - {k}
  }

  function AfterAll(m: Contents, rs: seq<Request>): Contents
    decreases |rs|
  {
    if rs == [] then m else After(AfterAll(m, rs[..|rs| - 1]), rs[|rs| - 1])
  }

  /** The i-th request is a kv_store_set() that got OK, and no later one that changes its key did. */
  predicate LastWrite(m: Contents, rs: seq<Request>, i: nat) {
    && i < |rs| && rs[i].Set? && Answer(AfterAll(m, rs[..i]), rs[i]) == OK
    && forall j | i < j < |rs| && !rs[j].Get? && rs[j].key == rs[i].key :: Answer(AfterAll(m, rs[..j]), rs[j]) != OK
  }

  lemma LastWriteFront(m: Contents, rs: seq<Request>, i: nat)
    requires LastWrite(m, rs, i) && i < |rs| - 1
    ensures LastWrite(m, rs[..|rs| - 1], i)
  {
    hide Answer, AfterAll;
    var front := rs[..|rs| - 1];
    assert front[..i] == rs[..i];
    forall j | i < j < |front| && !front[j].Get? && front[j].key == front[i].key
      ensures Answer(AfterAll(m, front[..j]), front[j]) != OK
    {
      assert front[..j] == rs[..j] && front[j] == rs[j];
    }
  }

  /** A key has the value of the last write to it, whatever is requested for other keys. */
  lemma {:induction false} LastWriteCounts(m: Contents, rs: seq<Request>, i: nat)
    requires LastWrite(m, rs, i)
    ensures rs[i].key in AfterAll(m, rs) && AfterAll(m, rs)[rs[i].key] == Entry(rs[i].value, rs[i].client)
    decreases |rs|
  {
    hide LastWrite;
    LastRequest(m, rs, i);
    if i < |rs| - 1 {
      LastWriteFront(m, rs, i);
      LastWriteCounts(m, rs[..|rs| - 1], i);
    }
  }

  lemma LastRequest(m: Contents, rs: seq<Request>, i: nat)
    requires LastWrite(m, rs, i)
    ensures i < |rs| && rs[i].Set?
    ensures var n := |rs| - 1;
            if i == n then Answer(AfterAll(m, rs[..n]), rs[n]) == OK
            else !rs[n].Get? && rs[n].key == rs[i].key ==> Answer(AfterAll(m, rs[..n]), rs[n]) != OK
  {
  }

  predicate SameOwner(a: Address, b: Address) {
    a == b || SameIp(a, b)
  }

  /** The key is there all along. */
  predicate Stays(m: Contents, rs: seq<Request>, key: string)
    decreases |rs|
  {
    key in AfterAll(m, rs) && (rs == [] || Stays(m, rs[..|rs| - 1], key))
  }

  /** Between its creation and its deletion a key has one owner IP. */
  lemma {:induction false} OwnerFixed(m: Contents, rs: seq<Request>, key: string)
    requires Stays(m, rs, key)
    ensures key in m && SameOwner(m[key].owner, AfterAll(m, rs)[key].owner)
    decreases |rs|
  {
    if rs != [] {
      OwnerFixed(m, rs[..|rs| - 1], key);
    }
  }

  /** Without a request from the owner's IP, nobody changes a record or removes it; with an owner of an
      unsupported family, nobody does at all. */
  lemma {:induction false} OthersCannot(m: Contents, rs: seq<Request>, key: string)
    requires key in m
    requires forall r | r in rs && !r.Get? && r.key == key :: !SameIp(r.client, m[key].owner)
    ensures key in AfterAll(m, rs) && AfterAll(m, rs)[key] == m[key]
    decreases |rs|
  {
    if rs != [] {
      OthersCannot(m, rs[..|rs| - 1], key);
      assert rs[|rs| - 1] in rs;
    }
  }

  lemma {:induction false} NeverTooMany(m: Contents, rs: seq<Request>)
    requires |m| <= MAX_RECORDS
    ensures |AfterAll(m, rs)| <= MAX_RECORDS
    decreases |rs|
  {
    if rs != [] {
      var m', r := AfterAll(m, rs[..|rs| - 1]), rs[|rs| - 1];
      NeverTooMany(m, rs[..|rs| - 1]);
      SizeAfter(m', r);
    }
  }

  lemma SizeAfter(m: Contents, r: Request)
    requires |m| <= MAX_RECORDS
    ensures |After(m, r)| <= MAX_RECORDS
  {
    var m' := After(m, r);
    match r
    case Set(k, v, c, _) => if Answer(m, r) == OK { assert m'.Keys == m.Keys + {k}; }
    case Get(_) =>
    case Delete(k, _) => if Answer(m, r) == OK { assert m'.Keys == m.Keys - {k}; }
  }

  // ---------------------------------------------------------------- the array of records

  predicate WellFormed(r: Record) {
    |r.data| == r.keyLen + r.valueLen
  }

  function Key(r: Record): string
    requires WellFormed(r)
  {
    r.data[..r.keyLen]
  }

  function EntryOf(r: Record): Entry
    requires WellFormed(r)
  {
    Entry(r.data[r.keyLen..], r.clientAddr)
  }

  predicate Distinct(rs: seq<Record>) {
    && (forall i | 0 <= i < |rs| :: WellFormed(rs[i]))
    && (forall i, j | 0 <= i < j < |rs| :: Key(rs[i]) != Key(rs[j]))
  }

  function ToMap(rs: seq<Record>): Contents
    requires Distinct(rs)
  {
    if rs == [] then map[]
    else ToMap(rs[..|rs| - 1])[Key(rs[|rs| - 1]) := EntryOf(rs[|rs| - 1])]
  }

  /** The key is in the map if and only if some record has it; and it is mapped to what that record holds. */
  lemma {:induction false} Lookup(rs: seq<Record>, key: string)
    requires Distinct(rs)
    ensures key in ToMap(rs) <==> exists i :: 0 <= i < |rs| && Key(rs[i]) == key
    ensures forall i | 0 <= i < |rs| && Key(rs[i]) == key :: ToMap(rs)[key] == EntryOf(rs[i])
  {
    if rs != [] {
      var front := rs[..|rs| - 1];
      Lookup(front, key);
      assert forall i | 0 <= i < |front| :: front[i] == rs[i];
    }
  }

  lemma {:induction false} Size(rs: seq<Record>)
    requires Distinct(rs)
    ensures |ToMap(rs)| == |rs|
  {
    if rs != [] {
      var front, r := rs[..|rs| - 1], rs[|rs| - 1];
      Size(front);
      Lookup(front, Key(r));
      assert ToMap(rs).Keys == ToMap(front).Keys + {Key(r)};
    }
  }

  lemma Append(rs: seq<Record>, r: Record)
    requires Distinct(rs) && WellFormed(r) && Key(r) !in ToMap(rs)
    ensures Distinct(rs + [r]) && ToMap(rs + [r]) == ToMap(rs)[Key(r) := EntryOf(r)]
  {
    Lookup(rs, Key(r));
    assert (rs + [r])[..|rs|] == rs;
  }

  lemma Last(rs: seq<Record>)
    requires Distinct(rs) && rs != []
    ensures var front, r := rs[..|rs| - 1], rs[|rs| - 1];
            Distinct(front) && WellFormed(r) && Key(r) !in ToMap(front)
            && ToMap(rs) == ToMap(front)[Key(r) := EntryOf(r)]
            && forall i | 0 <= i < |front| :: WellFormed(rs[i]) && Key(rs[i]) != Key(r)
  {
    Lookup(rs[..|rs| - 1], Key(rs[|rs| - 1]));
  }

  lemma OnlyOne(rs: seq<Record>, i: nat)
    requires Distinct(rs) && i < |rs|
    ensures forall j | 0 <= j < |rs| && j != i :: Key(rs[j]) != Key(rs[i])
  {
  }

  /** A record put in the place of another takes its key out of the map. */
  lemma {:induction false} Overwrite(rs: seq<Record>, i: nat, r: Record)
    requires Distinct(rs) && i < |rs| && WellFormed(r)
    requires forall j | 0 <= j < |rs| && j != i :: Key(rs[j]) != Key(r)
    ensures Distinct(rs[i := r]) && ToMap(rs[i := r]) == (ToMap(rs) - {Key(rs[i])})[Key(r) := EntryOf(r)]
  {
    hide Distinct, ToMap, Key, EntryOf;
    var front, last := rs[..|rs| - 1], |rs| - 1;
    Last(rs);
    if i == last {
      Lookup(front, Key(r));
      Append(front, r);
      assert rs[i := r] == front + [r];
      assert ToMap(rs) - {Key(rs[last])} == ToMap(front);
    } else {
      Overwrite(front, i, r);
      Append(front[i := r], rs[last]);
      assert rs[i := r] == front[i := r] + [rs[last]];
    }
  }

  /** The last record takes the place of the one deleted. */
  lemma SwapDelete(rs: seq<Record>, i: nat)
    requires Distinct(rs) && i < |rs|
    ensures var rs' := rs[i := rs[|rs| - 1]][..|rs| - 1];
            Distinct(rs') && ToMap(rs') == ToMap(rs) - {Key(rs[i])}
  {
    hide Distinct, ToMap, Key, EntryOf;
    var front, last := rs[..|rs| - 1], |rs| - 1;
    Last(rs);
    if i == last {
      assert rs[i := rs[last]][..last] == front;
      assert ToMap(rs) - {Key(rs[last])} == ToMap(front);
    } else {
      Lookup(front, Key(rs[last]));
      Overwrite(front, i, rs[last]);
      assert rs[i := rs[last]][..last] == front[i := rs[last]];
      assert ToMap(rs) - {Key(rs[i])} == (ToMap(front) - {Key(front[i])})[Key(rs[last]) := EntryOf(rs[last])];
    }
  }

  class Store {
    var records: array<Record>
    var recordCnt: nat

    ghost predicate Valid()
      reads this, records
    {
      records.Length == MAX_RECORDS && recordCnt <= MAX_RECORDS && Distinct(records[..recordCnt])
    }

    ghost function Map(): Contents
      reads this, records
      requires Valid()
    {
      ToMap(records[..recordCnt])
    }

    constructor ()
      ensures Valid() && Map() == map[] && fresh(records)
    {
      records := new Record[MAX_RECORDS];
      recordCnt := 0;
    }

    /** kv_store_cleanup() */
    method Cleanup()
      requires Valid()
      modifies this
      ensures Valid() && Map() == map[] && records == old(records)
    {
      recordCnt := 0;
    }

    /** kv_store_get_idx() */
    method GetIdx(key: string) returns (idx: int)
      requires Valid()
      ensures -1 <= idx < recordCnt && (idx == -1 <==> key !in Map())
      ensures idx >= 0 ==> Key(records[idx]) == key && Map()[key] == EntryOf(records[idx])
    {
      ghost var rs := records[..recordCnt];
      Lookup(rs, key);
      for i := 0 to recordCnt
        invariant forall j | 0 <= j < i :: Key(rs[j]) != key
      {
        var curr := records[i];
        assert curr == rs[i];
        if |key| == curr.keyLen && key == curr.data[..|key|] {
          return i;
        }
      }
      return -1;
    }

    /** kv_store_set(); `allocates` says whether malloc() succeeds. */
    method Set(key: string, value: string, clientAddr: Address, allocates: bool) returns (status: Status)
      requires Valid()
      modifies this, records
      ensures Valid() && records == old(records)
      ensures status == Answer(old(Map()), Request.Set(key, value, clientAddr, allocates))
      ensures Map() == After(old(Map()), Request.Set(key, value, clientAddr, allocates))
      ensures Map() == if status == OK then old(Map())[key := Entry(value, clientAddr)] else old(Map())
      ensures status == PERM <==>
                key in old(Map())
                && var owner := old(Map())[key].owner;
                !((clientAddr.Inet? && owner.Inet? && clientAddr.ip == owner.ip)
                  || (clientAddr.Inet6? && owner.Inet6? && clientAddr.ip6 == owner.ip6))
      ensures status == FULL <==> key !in old(Map()) && |old(Map())| == 1024
      ensures status == NOMEM <==> status != PERM && status != FULL && !allocates
      ensures status != NOTFOUND
    {
      hide Distinct, ToMap;
      ghost var rs := records[..recordCnt];
      var idx := GetIdx(key);
      Size(rs);
      if idx >= 0 {
        var existing := records[idx];
        if !SameIp(clientAddr, existing.clientAddr) {
          return PERM;
        }
      } else if recordCnt >= MAX_RECORDS {
        return FULL;
      }
      if !allocates {
        return NOMEM;
      }
      var newRecord := Record(|key|, |value|, clientAddr, key + value);
      assert Key(newRecord) == key && EntryOf(newRecord) == Entry(value, clientAddr);
      if idx == -1 {
        Append(rs, newRecord);
        records[recordCnt] := newRecord;
        recordCnt := recordCnt + 1;
        assert records[..recordCnt] == rs + [newRecord];
      } else {
        OnlyOne(rs, idx);
        Overwrite(rs, idx, newRecord);
        assert (Map() - {key})[key := Entry(value, clientAddr)] == Map()[key := Entry(value, clientAddr)];
        records[idx] := newRecord;
        assert records[..recordCnt] == rs[idx := newRecord];
      }
      return OK;
    }

    /** kv_store_get(), with the record as it is at the call. */
    method Get(key: string) returns (status: Status, result: Record)
      requires Valid()
      ensures status == if key in Map() then OK else NOTFOUND
      ensures status == OK ==>
                && result.data == key + Map()[key].value && result.clientAddr == Map()[key].owner
                && result.keyLen == |key| && result.valueLen == |Map()[key].value|
    {
      var idx := GetIdx(key);
      if idx == -1 {
        return NOTFOUND, Record(0, 0, Other(0), "");
      }
      assert records[idx] == records[..recordCnt][idx];
      assert records[idx].data == Key(records[idx]) + EntryOf(records[idx]).value;
      return OK, records[idx];
    }

    /** kv_store_delete() */
    method Delete(key: string, clientAddr: Address) returns (status: Status)
      requires Valid()
      modifies this, records
      ensures Valid() && records == old(records)
      ensures status == Answer(old(Map()), Request.Delete(key, clientAddr))
      ensures Map() == After(old(Map()), Request.Delete(key, clientAddr))
      ensures Map() == if status == OK then old(Map()) - {key} else old(Map())
      ensures status == NOTFOUND <==> key !in old(Map())
      ensures status == PERM <==>
                key in old(Map())
                && var owner := old(Map())[key].owner;
                !((clientAddr.Inet? && owner.Inet? && clientAddr.ip == owner.ip)
                  || (clientAddr.Inet6? && owner.Inet6? && clientAddr.ip6 == owner.ip6))
      ensures status in {OK, NOTFOUND, PERM}
    {
      hide Distinct, ToMap;
      ghost var rs := records[..recordCnt];
      var idx := GetIdx(key);
      if idx == -1 {
        return NOTFOUND;
      }
      var existing := records[idx];
      if !SameIp(clientAddr, existing.clientAddr) {
        return PERM;
      }
      SwapDelete(rs, idx);
      var lastRecordIdx := recordCnt - 1;
      if idx != lastRecordIdx {
        records[idx] := records[lastRecordIdx];
      }
      recordCnt := recordCnt - 1;
      assert records[..recordCnt] == rs[idx := rs[|rs| - 1]][..|rs| - 1];
      return OK;
    }
  }

  /** Two writes and a read by one client. */
  method ReadBack(client: Address) returns (result: Record)
    requires client.Inet?
    ensures result.data == "k" + "2" && result.keyLen == 1 && result.clientAddr == client
  {
    hide Distinct, ToMap;
    var store := new Store();
    var status := store.Set("k", "1", client, true);
    status := store.Set("k", "2", client, true);
    status, result := store.Get("k");
  }
}
