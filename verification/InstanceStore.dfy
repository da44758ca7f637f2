/**
  The instance database: one flat key-value store that holds the instance records under
  "instance:<id>" and, under "hwaddr:<mac>", which instance owns a hardware address.
 */
module InstanceStore {
  import opened Runs
  import opened Wrappers
  import opened KeyOrder

  datatype VmState = Unspecified | Starting | Running | RequestingStop | Stopped | Unknown

  type uint32 = x: int | 0 <= x < 0x1_0000_0000

  datatype Hardware = Hardware(cpus: uint32, memory: uint32, disk: uint32)

  datatype CloudInit = CloudInit(userdata: string, networkConfig: string)

  datatype Instance = Instance(
    id: string,
    hardware: Option<Hardware>,
    hwaddr: Option<string>,
    imageId: string,
    state: VmState,
    cloudInit: Option<CloudInit>,
    node: string)

  /** What a key holds: an instance record, or the id that owns a hardware address. */
  datatype Entry = Record(inst: Instance) | Owner(id: string)

  datatype DbError = Constraint | NoInstanceRemoved | KeyNotFound

  const INSTANCE_PREFIX := "instance:"
  const HWADDR_PREFIX := "hwaddr:"

  predicate IsInstanceKey(k: string) {
    INSTANCE_PREFIX <= k
  }

  predicate IsHwKey(k: string) {
    HWADDR_PREFIX <= k
  }

  /** The rest of a key after its prefix. */
  function Name(prefix: string, k: string): string {
    if prefix <= k then k[|prefix|..] else k
  }

  function InstanceKey(id: string): (k: string)
    ensures IsInstanceKey(k) && !IsHwKey(k) && Name(INSTANCE_PREFIX, k) == id
  {
    assert (INSTANCE_PREFIX + id)[0] == 'i';
    INSTANCE_PREFIX + id
  }

  function HwKey(mac: string): (k: string)
    ensures IsHwKey(k) && !IsInstanceKey(k) && Name(HWADDR_PREFIX, k) == mac
  {
    assert (HWADDR_PREFIX + mac)[0] == 'h';
    HWADDR_PREFIX + mac
  }

  lemma KeyHasName(k: string)
    ensures IsInstanceKey(k) ==> k == InstanceKey(Name(INSTANCE_PREFIX, k))
    ensures IsHwKey(k) ==> k == HwKey(Name(HWADDR_PREFIX, k))
    ensures InstanceKey(k) == "instance:" + k && HwKey(k) == "hwaddr:" + k
  {
  }

  // ---- The abstract view: a table from id to record ----

  type Table = map<string, Instance>

  /** The NOT NULL and CHECK constraints of an update. */
  predicate Complete(inst: Instance) {
    && inst.id != ""
    && inst.imageId != ""
    && inst.hardware.Some?
    && inst.hwaddr.Some? && inst.hwaddr.value != ""
    && inst.hardware.value.cpus != 0 && inst.hardware.value.memory != 0 && inst.hardware.value.disk != 0
  }

  /** No other instance has this one's hardware address. */
  predicate MacFree(table: Table, inst: Instance) {
    forall other <- table :: other != inst.id ==> table[other].hwaddr != inst.hwaddr
  }

  /** Every record is complete and filed under its own id, and hardware addresses are unique. */
  ghost predicate Sound(table: Table) {
    && (forall id <- table :: table[id].id == id && Complete(table[id]))
    && (forall a, b {:trigger table[a].hwaddr, table[b].hwaddr} | a in table && b in table ::
          table[a].hwaddr == table[b].hwaddr ==> a == b)
  }

  /** The effect of an update, with uniqueness read off the records themselves. */
  function Put(table: Table, inst: Instance): Table {
    if Complete(inst) && MacFree(table, inst) then table[inst.id := inst] else table
  }

  /** The effect of a removal: only a stopped instance goes. */
  function Drop(table: Table, id: string): Table {
    if id in table && table[id].state == Stopped then table - {id} else table
  }

  datatype Op = UpdateOp(inst: Instance) | RemoveOp(id: string)

  function Perform(table: Table, op: Op): Table {
    match op
    case UpdateOp(inst) => Put(table, inst)
    case RemoveOp(id) => Drop(table, id)
  }

  function PerformAll(table: Table, ops: seq<Op>): Table {
    Fold(Perform, table, ops)
  }

  lemma SoundPerform(table: Table, op: Op)
    requires Sound(table)
    ensures Sound(Perform(table, op))
  {
  }

  lemma {:induction false} SoundAfterAnyOps(table: Table, ops: seq<Op>)
    requires Sound(table)
    ensures Sound(PerformAll(table, ops))
  {
    if ops != [] {
      SoundAfterAnyOps(table, ops[..|ops| - 1]);
      SoundPerform(PerformAll(table, ops[..|ops| - 1]), ops[|ops| - 1]);
    }
  }

  /**
    An address in use becomes free exactly when the operation makes
    its holder give it up: no third party can get in between.
   */
  lemma AddressReleased(table: Table, op: Op, id: string, taker: Instance)
    requires Sound(table) && id in table
    requires taker.hwaddr == table[id].hwaddr && taker.id != id
    ensures MacFree(Perform(table, op), taker)
       <==> !(id in Perform(table, op) && Perform(table, op)[id].hwaddr == taker.hwaddr)
  {
  }

  // ---- How the flat store represents a table ----

  /** The store holds the records, the index, and nothing else; the index is the inverse of the records' addresses. */
  ghost predicate Represents(kv: map<string, Entry>, table: Table) {
    && (forall k <- kv :: IsInstanceKey(k) || IsHwKey(k))
    && RecordsStored(kv, table)
    && IndexSound(kv, table)
    && IndexComplete(kv, table)
  }

  ghost predicate RecordsStored(kv: map<string, Entry>, table: Table) {
    forall id {:trigger InstanceKey(id)} ::
      && (InstanceKey(id) in kv <==> id in table)
      && (id in table ==> kv[InstanceKey(id)] == Record(table[id]))
  }

  ghost predicate IndexSound(kv: map<string, Entry>, table: Table) {
    forall mac {:trigger HwKey(mac)} | HwKey(mac) in kv ::
      && kv[HwKey(mac)].Owner?
      && kv[HwKey(mac)].id in table
      && table[kv[HwKey(mac)].id].hwaddr == Some(mac)
  }

  ghost predicate IndexComplete(kv: map<string, Entry>, table: Table) {
    forall id {:trigger InstanceKey(id)} | id in table && table[id].hwaddr.Some? ::
      && HwKey(table[id].hwaddr.value) in kv
      && kv[HwKey(table[id].hwaddr.value)] == Owner(id)
  }

  /** The representation is exact: equal tables have equal stores, so the index holds no information of its own. */
  lemma StoreDeterminedByTable(kv1: map<string, Entry>, kv2: map<string, Entry>, table: Table)
    requires Represents(kv1, table) && Represents(kv2, table)
    ensures kv1 == kv2
  {
    StoreIncluded(kv1, kv2, table);
    StoreIncluded(kv2, kv1, table);
  }

  lemma StoreIncluded(kv1: map<string, Entry>, kv2: map<string, Entry>, table: Table)
    requires Represents(kv1, table) && Represents(kv2, table)
    ensures forall k <- kv1 :: k in kv2 && kv1[k] == kv2[k]
  {
    forall k <- kv1
      ensures k in kv2 && kv1[k] == kv2[k]
    {
      KeyHasName(k);
      if IsHwKey(k) {
        assert IndexComplete(kv1, table) && IndexComplete(kv2, table);
        assert InstanceKey(kv1[k].id) in kv1;
      }
    }
  }

  /** Equal stores represent equal tables. */
  lemma TableDeterminedByStore(kv: map<string, Entry>, table1: Table, table2: Table)
    requires Represents(kv, table1) && Represents(kv, table2)
    ensures table1 == table2
  {
    forall id
      ensures id in table1 <==> id in table2
      ensures id in table1 && id in table2 ==> table1[id] == table2[id]
    {
      assert InstanceKey(id) in kv <==> id in table1;
    }
  }

  /** The index lookup decides the same thing as a scan of all the records. */
  lemma IndexDecidesMacFree(kv: map<string, Entry>, table: Table, inst: Instance)
    requires Represents(kv, table) && inst.hwaddr.Some?
    ensures MacFree(table, inst) <==>
            (HwKey(inst.hwaddr.value) in kv ==> kv[HwKey(inst.hwaddr.value)] == Owner(inst.id))
  {
    forall other <- table | table[other].hwaddr == inst.hwaddr
      ensures HwKey(inst.hwaddr.value) in kv && kv[HwKey(inst.hwaddr.value)] == Owner(other)
    {
      assert InstanceKey(other) in kv;
    }
  }

  /** Writing the record and its index entry, with the old index entry deleted, represents the updated table. */
  lemma RepresentsPut(kv: map<string, Entry>, table: Table, inst: Instance, kv': map<string, Entry>)
    requires Represents(kv, table) && Sound(table) && Complete(inst) && MacFree(table, inst)
    requires
      var stale := if inst.id in table && table[inst.id].hwaddr != inst.hwaddr
                   then {HwKey(table[inst.id].hwaddr.value)} else {};
      kv' == (kv - stale)[InstanceKey(inst.id) := Record(inst)][HwKey(inst.hwaddr.value) := Owner(inst.id)]
    ensures Represents(kv', Put(table, inst))
  {
    var table' := table[inst.id := inst];
    assert RecordsStored(kv', table');
    assert IndexSound(kv', table') by {
      forall mac | HwKey(mac) in kv'
        ensures
          && kv'[HwKey(mac)].Owner?
          && kv'[HwKey(mac)].id in table'
          && table'[kv'[HwKey(mac)].id].hwaddr == Some(mac)
      {
        assert HwKey(mac) == HwKey(inst.hwaddr.value) ==> mac == inst.hwaddr.value;
      }
    }
    forall id | id in table'
      ensures HwKey(table'[id].hwaddr.value) in kv' && kv'[HwKey(table'[id].hwaddr.value)] == Owner(id)
    {
      assert InstanceKey(id) in kv';
    }
  }

  /** Deleting the record and its index entry represents the table without it. */
  lemma RepresentsDrop(kv: map<string, Entry>, table: Table, id: string, kv': map<string, Entry>)
    requires Represents(kv, table) && Sound(table)
    requires id in table && table[id].state == Stopped
    requires kv' == kv - {HwKey(table[id].hwaddr.value)} - {InstanceKey(id)}
    ensures Represents(kv', Drop(table, id))
  {
    var table' := table - {id};
    assert RecordsStored(kv', table');
    assert IndexSound(kv', table') by {
      assert InstanceKey(id) in kv;
    }
    forall other | other in table'
      ensures HwKey(table'[other].hwaddr.value) in kv' && kv'[HwKey(table'[other].hwaddr.value)] == Owner(other)
    {
      assert InstanceKey(other) in kv;
    }
  }

  // ---- Listing ----

  function Ids(list: seq<Instance>): (ids: seq<string>)
    ensures |ids| == |list|
    ensures forall i | 0 <= i < |list| :: ids[i] == list[i].id
  {
    seq(|list|, i requires 0 <= i < |list| => list[i].id)
  }

  /** Each record of the table once, in key order, and nothing else. */
  predicate Listing(table: Table, list: seq<Instance>) {
    && Ascending(Ids(list))
    && (forall inst <- list :: inst.id in table && inst == table[inst.id])
    && (forall id <- table :: id in Ids(list))
  }

  /** A table has exactly one listing. */
  lemma ListingUnique(table: Table, list1: seq<Instance>, list2: seq<Instance>)
    requires Listing(table, list1) && Listing(table, list2)
    ensures list1 == list2
  {
    ListedIds(table, list1);
    ListedIds(table, list2);
    AscendingUnique(Ids(list1), Ids(list2));
    forall i | 0 <= i < |list1|
      ensures list1[i] == list2[i]
    {
      assert list1[i] in list1 && list2[i] in list2;
      assert Ids(list1)[i] == Ids(list2)[i];
    }
  }

  lemma ListingExists(table: Table) returns (list: seq<Instance>)
    requires Sound(table)
    ensures Listing(table, list)
  {
    var ids := InOrder(table.Keys);
    list := seq(|ids|, i requires 0 <= i < |ids| && ids[i] in table => table[ids[i]]);
    assert Ids(list) == ids;
  }

  lemma ListedIds(table: Table, list: seq<Instance>)
    requires Listing(table, list)
    ensures forall id :: id in Ids(list) <==> id in table
    ensures forall i, j | 0 <= i < j < |list| :: list[i].id != list[j].id
    ensures forall id <- table :: table[id] in list && table[id].id == id
  {
    forall id <- table
      ensures table[id] in list && table[id].id == id
    {
      var i :| 0 <= i < |list| && Ids(list)[i] == id;
      assert list[i] in list;
    }
    forall i, j | 0 <= i < j < |list|
      ensures list[i].id != list[j].id
    {
      BelowIrreflexive(list[i].id);
      assert Below(Ids(list)[i], Ids(list)[j]);
    }
    forall id | id in Ids(list)
      ensures id in table
    {
      var i :| 0 <= i < |list| && Ids(list)[i] == id;
      assert list[i] in list;
    }
  }

  class Database {
    var kv: map<string, Entry>
    ghost var table: Table
    ghost var commits: nat  // how many updates were written

    ghost predicate Valid()
      reads this
    {
      Represents(kv, table) && Sound(table)
    }

    constructor ()
      ensures Valid() && table == map[] && commits == 0
    {
      kv, table, commits := map[], map[], 0;
    }

    method Get(name: string) returns (r: Result<Instance, DbError>)
      requires Valid()
      ensures r == if name in table then Ok(table[name]) else Err(KeyNotFound)
    {
      var key := InstanceKey(name);
      if key in kv {
        r := Ok(kv[key].inst);
      } else {
        r := Err(KeyNotFound);
      }
    }

    method Update(inst: Instance) returns (r: Result<Instance, DbError>)
      requires Valid()
      modifies this
      ensures Valid()
      ensures table == Put(old(table), inst)
      ensures r == if Complete(inst) && MacFree(old(table), inst) then Ok(inst) else Err(Constraint)
      ensures r.Ok? <==>
              && inst.id != "" && inst.imageId != "" && inst.hwaddr.Some? && inst.hwaddr.value != ""
              && inst.hardware.Some? && inst.hardware.value.cpus > 0
              && inst.hardware.value.memory > 0 && inst.hardware.value.disk > 0
              && forall other <- old(table) :: other != inst.id ==> old(table)[other].hwaddr != inst.hwaddr
      ensures table == if r.Ok? then old(table)[inst.id := inst] else old(table)
      ensures r.Err? ==> kv == old(kv) && commits == old(commits)
      ensures r.Ok? ==> commits == old(commits) + 1
    {
      if inst.id == "" || inst.imageId == "" || inst.hardware.None?
         || inst.hwaddr.None? || inst.hwaddr.value == ""
      {
        return Err(Constraint);
      }
      if inst.hardware.value.memory == 0 || inst.hardware.value.disk == 0 || inst.hardware.value.cpus == 0 {
        return Err(Constraint);
      }
      IndexDecidesMacFree(kv, table, inst);
      var hwKey := HwKey(inst.hwaddr.value);
      if hwKey in kv && kv[hwKey].id != inst.id {
        return Err(Constraint);
      }
      var txn := kv;
      var key := InstanceKey(inst.id);
      if key in kv {
        var previous := kv[key].inst;
        if previous.hwaddr.Some? && previous.hwaddr.value != "" && previous.hwaddr != inst.hwaddr {
          txn := txn - {HwKey(previous.hwaddr.value)};
        }
      }
      txn := txn[key := Record(inst)];
      txn := txn[hwKey := Owner(inst.id)];
      RepresentsPut(kv, table, inst, txn);
      kv, table, commits := txn, Put(table, inst), commits + 1;
      r := Ok(inst);
    }

    method Remove(id: string) returns (r: Result<(), DbError>)
      requires Valid()
      modifies this
      ensures Valid()
      ensures table == Drop(old(table), id)
      ensures table == if id in old(table) && old(table)[id].state == Stopped then old(table) - {id} else old(table)
      ensures r == if id in old(table) && old(table)[id].state == Stopped then Ok(()) else Err(NoInstanceRemoved)
      ensures r.Err? ==> kv == old(kv)
      ensures commits == old(commits)
    {
      var key := InstanceKey(id);
      if key !in kv {
        return Err(NoInstanceRemoved);
      }
      var inst := kv[key].inst;
      if inst.state != Stopped {
        return Err(NoInstanceRemoved);
      }
      var txn := kv;
      if inst.hwaddr.Some? && inst.hwaddr.value != "" {
        txn := txn - {HwKey(inst.hwaddr.value)};
      }
      txn := txn - {key};
      RepresentsDrop(kv, table, id, txn);
      kv, table := txn, Drop(table, id);
      r := Ok(());
    }

    /** Walks the keys from the instance prefix for as long as they carry it. */
    method List() returns (result: seq<Instance>)
      requires Valid()
      ensures Listing(table, result)
    {
      result := [];
      ghost var bound, strict := INSTANCE_PREFIX, false;
      var it := FirstFrom(kv.Keys, INSTANCE_PREFIX, false);
      AllAhead(table);
      while it.Some? && INSTANCE_PREFIX <= it.value
        invariant IsInstanceKey(bound) && AtIterator(kv.Keys, bound, strict, it)
        invariant ListedSoFar(table, bound, strict, result)
        decreases set k <- kv.Keys | From(bound, strict, k)
      {
        StepPasses(kv.Keys, bound, strict, it.value);
        ListStep(kv, table, bound, strict, it.value, result);
        result := result + [kv[it.value].inst];
        bound, strict := it.value, true;
        it := FirstFrom(kv.Keys, it.value, true);
      }
      NothingMissed(kv, table, bound, strict, it, result);
    }
  }

  /** Exactly the records before the bound are listed, in order. */
  ghost predicate ListedSoFar(table: Table, bound: string, strict: bool, list: seq<Instance>) {
    && Ascending(Ids(list))
    && (forall inst <- list :: inst.id in table && inst == table[inst.id])
    && (forall id <- table :: id in Ids(list) <==> !From(bound, strict, InstanceKey(id)))
  }

  lemma AllAhead(table: Table)
    ensures forall id <- table :: From(INSTANCE_PREFIX, false, InstanceKey(id))
  {
    forall id <- table
      ensures From(INSTANCE_PREFIX, false, InstanceKey(id))
    {
      PrefixFirst(INSTANCE_PREFIX, InstanceKey(id));
    }
  }

  /** Appending the record under `key` keeps the listing in order and complete up to that key. */
  lemma ListStep(kv: map<string, Entry>, table: Table, bound: string, strict: bool, key: string, list: seq<Instance>)
    requires Represents(kv, table) && Sound(table) && IsInstanceKey(key)
    requires AtIterator(kv.Keys, bound, strict, Some(key)) && ListedSoFar(table, bound, strict, list)
    ensures kv[key].Record? && ListedSoFar(table, key, true, list + [kv[key].inst])
  {
    KeyHasName(key);
    var id := Name(INSTANCE_PREFIX, key);
    var list' := list + [kv[key].inst];
    assert Ids(list') == Ids(list) + [id];
    StepPasses(kv.Keys, bound, strict, key);
    forall i | 0 <= i < |list|
      ensures Below(Ids(list)[i], id)
    {
      assert list[i] in list && Ids(list)[i] in Ids(list);
      Passed(bound, strict, InstanceKey(list[i].id), key);
      BelowUnderPrefix(INSTANCE_PREFIX, list[i].id, id);
    }
    forall x <- table
      ensures x in Ids(list') <==> !From(key, true, InstanceKey(x))
    {
      assert InstanceKey(x) in kv;
    }
  }

  /** Once the iterator leaves the instance prefix, no record lies ahead of it. */
  lemma NothingMissed(kv: map<string, Entry>, table: Table, bound: string, strict: bool,
                      it: Option<string>, list: seq<Instance>)
    requires RecordsStored(kv, table) && IsInstanceKey(bound)
    requires AtIterator(kv.Keys, bound, strict, it) && (it.Some? ==> !IsInstanceKey(it.value))
    requires ListedSoFar(table, bound, strict, list)
    ensures Listing(table, list)
  {
    forall id <- table
      ensures id in Ids(list)
    {
      assert InstanceKey(id) in kv;
      if it.Some? && From(bound, strict, InstanceKey(id)) {
        PrefixedKeysContiguous(INSTANCE_PREFIX, bound, it.value, InstanceKey(id));
      }
    }
  }
}
