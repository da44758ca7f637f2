/** The local node manager: record changes through separate database transactions, reconciled with what QEMU runs. */
module NodeManager {
  import opened Wrappers
  import opened KeyOrder
  import opened InstanceStore
  import opened VmInfo

  datatype NodeError =
    | AlreadyExists
    | NotFound
    | NotStopped
    | NoMac
    | DialFailed
    | QemuFailed
    | Database(error: DbError)

  /** What setting a state came to. The source logs a rejected update and goes on. */
  datatype SetOutcome = Missing | Unchanged | Written | Rejected

  /** The request sent to QEMU. */
  datatype Launch = Launch(id: string, imageId: string, hardware: Hardware, mac: string, cloudInit: CloudInit)

  const NETWORK_CONFIG_HEAD := "version: 2\nethernets:\n  id0:\n    match:\n      macaddress: "
  const NETWORK_CONFIG_TAIL := "\n    dhcp4: true\n    dhcp-identifier: mac\n"

  /** The cloud-init data used for a launch: a network config is generated unless the record brings one. */
  function LaunchCloudInit(inst: Instance): CloudInit
    requires inst.hwaddr.Some?
  {
    var given := if inst.cloudInit.Some? then inst.cloudInit.value else CloudInit("", "");
    if given.networkConfig == ""
    then given.(networkConfig := NETWORK_CONFIG_HEAD + inst.hwaddr.value + NETWORK_CONFIG_TAIL)
    else given
  }

  function LaunchOf(inst: Instance): Launch
    requires inst.hwaddr.Some? && inst.hardware.Some?
  {
    Launch(inst.id, inst.imageId, inst.hardware.value, inst.hwaddr.value, LaunchCloudInit(inst))
  }

  /**
    What a launch asks for: image, hardware and address of the record, its user data, and its network config.
    Where it brings none, the config is the text that names its address.
   */
  predicate AsksFor(launch: Launch, inst: Instance) {
    && launch.id == inst.id
    && launch.imageId == inst.imageId
    && inst.hardware == Some(launch.hardware)
    && inst.hwaddr == Some(launch.mac)
    && launch.cloudInit.userdata == (if inst.cloudInit.Some? then inst.cloudInit.value.userdata else "")
    && launch.cloudInit.networkConfig ==
       if inst.cloudInit.Some? && inst.cloudInit.value.networkConfig != "" then inst.cloudInit.value.networkConfig
       else "version: 2\nethernets:\n  id0:\n    match:\n      macaddress: " + launch.mac
            + "\n    dhcp4: true\n    dhcp-identifier: mac\n"
  }

  /** The request that is sent is the one that asks for the record's fields. */
  lemma LaunchExactly(launch: Launch, inst: Instance)
    requires inst.hwaddr.Some? && inst.hardware.Some?
    ensures launch == LaunchOf(inst) <==> AsksFor(launch, inst)
  {
  }

  /** The effect of setting one instance's state. */
  function WithState(table: Table, id: string, state: VmState): Table {
    if id in table then table[id := table[id].(state := state)] else table
  }

  /** A state change is never in conflict with the constraints of a sound table. */
  lemma StateChangeAccepted(table: Table, id: string, state: VmState)
    requires Sound(table) && id in table
    ensures Complete(table[id].(state := state)) && MacFree(table, table[id].(state := state))
    ensures Put(table, table[id].(state := state)) == WithState(table, id, state)
  {
  }

  /** Of two state changes of one instance the second stays. */
  lemma SetTwice(table: Table, id: string, first: VmState, second: VmState)
    ensures WithState(WithState(table, id, first), id, second) == WithState(table, id, second)
  {
  }

  function SetOf(ids: seq<string>): set<string> {
    set id <- ids
  }

  // ---- Reconciliation with the set that QEMU runs ----

  function Agreed(state: VmState, runs: bool): VmState {
    if runs then Running else if state == Running then Stopped else state
  }

  function Reconciled(inst: Instance, running: set<string>): Instance {
    inst.(state := Agreed(inst.state, inst.id in running))
  }

  /** The writes of the reconcile loop over a (possibly stale) list. */
  function ReconcileWrites(table: Table, list: seq<Instance>, running: set<string>): Table {
    if list == [] then table
    else
      var n := |list| - 1;
      var before := ReconcileWrites(table, list[..n], running);
      if Reconciled(list[n], running) == list[n] then before
      else WithState(before, list[n].id, Agreed(list[n].state, list[n].id in running))
  }

  function ReconciledTable(table: Table, running: set<string>): Table {
    map id | id in table :: Reconciled(table[id], running)
  }

  /** Over a full and fresh list, the loop brings every record into agreement with QEMU. */
  lemma ReconcileFullList(table: Table, list: seq<Instance>, running: set<string>)
    requires Listing(table, list)
    ensures ReconcileWrites(table, list, running) == ReconciledTable(table, running)
    ensures ReconciledTable(table, running) == table ==> forall inst <- list :: Reconciled(inst, running) == inst
  {
    ListedIds(table, list);
    ReconcileRows(table, list, running);
  }

  /** The writes touch exactly the listed rows. */
  lemma {:induction false} ReconcileRows(table: Table, list: seq<Instance>, running: set<string>)
    requires forall id <- table :: table[id].id == id
    requires forall inst <- list :: inst.id in table && inst == table[inst.id]
    requires forall i, j | 0 <= i < j < |list| :: list[i].id != list[j].id
    ensures ReconcileWrites(table, list, running).Keys == table.Keys
    ensures forall id <- table :: ReconcileWrites(table, list, running)[id]
                                  == if table[id] in list then Reconciled(table[id], running) else table[id]
  {
    if list != [] {
      var n := |list| - 1;
      ReconcileRows(table, list[..n], running);
      assert list[n] in list && list[n] !in list[..n];
      assert forall inst :: inst in list <==> inst in list[..n] || inst == list[n];
    }
  }

  /**
    What agreement means: running exactly when QEMU runs it, other
    states and all other fields untouched, nothing added or lost.
   */
  lemma ReconciledMeaning(table: Table, running: set<string>)
    requires Sound(table)
    ensures
      var after := ReconciledTable(table, running);
      && Sound(after)
      && after.Keys == table.Keys
      && forall id <- table ::
           && (after[id].state == Running <==> id in running)
           && (table[id].state != Running && id !in running ==> after[id] == table[id])
           && after[id].(state := table[id].state) == table[id]
  {
  }

  /** Reconciling twice with the same running set is reconciling once. */
  lemma ReconcileIdempotent(table: Table, running: set<string>)
    requires Sound(table)
    ensures ReconciledTable(ReconciledTable(table, running), running) == ReconciledTable(table, running)
    ensures forall id <- table ::
              Reconciled(ReconciledTable(table, running)[id], running) == ReconciledTable(table, running)[id]
  {
  }

  /** The list in memory, reconciled row by row, is the listing of the reconciled table. */
  lemma ReconciledListing(table: Table, list: seq<Instance>, running: set<string>, list': seq<Instance>)
    requires Listing(table, list)
    requires |list'| == |list| && forall i | 0 <= i < |list| :: list'[i] == Reconciled(list[i], running)
    ensures Listing(ReconciledTable(table, running), list')
    ensures forall id <- table :: ReconciledTable(table, running)[id] in list'
  {
    assert Ids(list') == Ids(list);
    forall i | 0 <= i < |list'|
      ensures list'[i].id in table && list'[i] == ReconciledTable(table, running)[list'[i].id]
    {
      assert list[i] in list;
    }
    ListedIds(ReconciledTable(table, running), list');
  }

  lemma ListingReported(table: Table, rows: seq<Instance>, runtime: map<string, RuntimeInfo>, infos: seq<Info>)
    requires Listing(table, rows)
    requires |infos| == |rows| && forall i | 0 <= i < |rows| :: infos[i] == Enrich(ToInfo(rows[i]), runtime)
    ensures Reports(infos, View(table, runtime))
  {
    assert Names(infos) == Ids(rows);
    forall i | 0 <= i < |infos|
      ensures infos[i].name in View(table, runtime) && infos[i] == View(table, runtime)[infos[i].name]
    {
      assert rows[i] in rows;
    }
  }

  class LocalNodeManager {
    const name: string
    const state: Database

    constructor (name: string, state: Database)
      ensures this.name == name && this.state == state
    {
      this.name, this.state := name, state;
    }

    method SetInstanceState(id: string, vmState: VmState) returns (outcome: SetOutcome)
      requires state.Valid()
      modifies state
      ensures state.Valid()
      ensures state.table == WithState(old(state.table), id, vmState)
      ensures outcome ==
              if id !in old(state.table) then Missing
              else if old(state.table)[id].state == vmState then Unchanged
              else Written
      ensures state.commits == old(state.commits) + if outcome == Written then 1 else 0
    {
      var inst := state.Get(id);
      if inst.Err? {
        return Missing;
      }
      if inst.value.state == vmState {
        return Unchanged;
      }
      StateChangeAccepted(state.table, id, vmState);
      var updated := state.Update(inst.value.(state := vmState));
      outcome := if updated.Err? then Rejected else Written;
    }

    method ReconcileInstances(instances: array<Instance>, ids: Option<seq<string>>)
      requires state.Valid()
      modifies state, instances
      ensures state.Valid()
      ensures ids.None? ==>
                instances[..] == old(instances[..]) && state.table == old(state.table)
                && state.commits == old(state.commits)
      ensures ids.Some? ==>
                var running := SetOf(ids.value);
                && state.table == ReconcileWrites(old(state.table), old(instances[..]), running)
                && forall i | 0 <= i < instances.Length :: instances[i] == Reconciled(old(instances[i]), running)
      ensures ids.Some? && (forall inst <- old(instances[..]) :: Reconciled(inst, SetOf(ids.value)) == inst) ==>
                state.table == old(state.table) && state.commits == old(state.commits)
    {
      hide Database.Valid;
      if ids.None? {
        return;
      }
      var running := SetOf(ids.value);
      ghost var list, before := instances[..], state.table;
      for i := 0 to instances.Length
        invariant state.Valid()
        invariant state.table == ReconcileWrites(before, list[..i], running)
        invariant forall j | 0 <= j < instances.Length ::
            instances[j] == if j < i then Reconciled(list[j], running) else list[j]
        invariant (forall inst <- list :: Reconciled(inst, running) == inst) ==>
            state.table == before && state.commits == old(state.commits)
      {
        assert list[..i + 1][..i] == list[..i] && list[i] in list;
        var inst := instances[i];
        if inst.id in running && inst.state != Running {
          instances[i] := inst.(state := Running);
          var _ := SetInstanceState(inst.id, Running);
        } else if inst.id !in running && inst.state == Running {
          instances[i] := inst.(state := Stopped);
          var _ := SetInstanceState(inst.id, Stopped);
        }
      }
      assert list[..instances.Length] == list;
    }

    /** Adds a stopped instance under a fresh random address; `mac` is what the generator returned. */
    method Create(id: string, imageId: string, hardware: Hardware, cloudInit: Option<CloudInit>, mac: Option<string>)
      returns (r: Result<(), NodeError>)
      requires state.Valid()
      modifies state
      ensures state.Valid()
      ensures r.Err? ==> state.table == old(state.table)
      ensures id in old(state.table) ==> r == Err(AlreadyExists)
      ensures r.Ok? <==>
              && id !in old(state.table) && mac.Some?
              && Complete(Instance(id, Some(hardware), mac, imageId, Stopped, cloudInit, name))
              && (forall other <- old(state.table) :: old(state.table)[other].hwaddr != mac)
      ensures r.Ok? ==>
                state.table == old(state.table)[id := Instance(id, Some(hardware), mac, imageId, Stopped, cloudInit,
                                                               name)]
    {
      var existing := state.Get(id);
      if existing.Ok? {
        return Err(AlreadyExists);
      }
      if mac.None? {
        return Err(NoMac);
      }
      var updated := state.Update(Instance(id, Some(hardware), mac, imageId, Stopped, cloudInit, name));
      r := if updated.Err? then Err(Database(updated.error)) else Ok(());
    }

    /** Starts a stopped instance; `dialOk` and `startOk` are the answers of the QEMU service. */
    method Start(id: string, dialOk: bool, startOk: bool) returns (r: Result<(), NodeError>, launched: Option<Launch>)
      requires state.Valid()
      modifies state
      ensures state.Valid()
      ensures id !in old(state.table) ==> r == Err(NotFound)
      ensures id in old(state.table) && old(state.table)[id].state != Stopped ==> r == Err(NotStopped)
      ensures r == Err(NotFound) || r == Err(NotStopped) ==> state.table == old(state.table) && launched == None
      ensures id in old(state.table) && old(state.table)[id].state == Stopped ==>
                && r == (if !dialOk then Err(DialFailed) else if !startOk then Err(QemuFailed) else Ok(()))
                && state.table == WithState(old(state.table), id, if dialOk && startOk then Running else Stopped)
                && (launched.Some? <==> dialOk)
                && (dialOk ==> AsksFor(launched.value, old(state.table)[id]))
    {
      assert id in state.table ==> state.table[id].hwaddr.Some? && state.table[id].hardware.Some?;
      hide Database.Valid, Sound, WithState, LaunchCloudInit, AsksFor;
      SetTwice(state.table, id, Starting, Stopped);
      SetTwice(state.table, id, Starting, Running);
      launched := None;
      var inst := state.Get(id);
      if inst.Err? {
        return Err(NotFound), None;
      }
      if inst.value.state != Stopped {
        return Err(NotStopped), None;
      }
      if inst.value.hwaddr.None? {
        return Err(NoMac), None;
      }
      var cloudInit := LaunchCloudInit(inst.value);
      var _ := SetInstanceState(id, Starting);
      if !dialOk {
        var _ := SetInstanceState(id, Stopped);
        return Err(DialFailed), None;
      }
      launched := Some(Launch(inst.value.id, inst.value.imageId, inst.value.hardware.value, inst.value.hwaddr.value,
                              cloudInit));
      LaunchExactly(launched.value, inst.value);
      if !startOk {
        var _ := SetInstanceState(id, Stopped);
        return Err(QemuFailed), launched;
      }
      var _ := SetInstanceState(id, Running);
      r := Ok(());
    }

    /** Removes a stopped instance; `cleanup` tells whether QEMU is then asked to delete the instance directory. */
    method Remove(id: string, dialOk: bool) returns (r: Result<(), NodeError>, cleanup: bool)
      requires state.Valid()
      modifies state
      ensures state.Valid()
      ensures state.table == Drop(old(state.table), id)
      ensures r == if id in old(state.table) && old(state.table)[id].state != Stopped then Err(NotStopped) else Ok(())
      ensures cleanup <==> id in old(state.table) && id !in state.table && dialOk
    {
      cleanup := false;
      var inst := state.Get(id);
      if inst.Err? {
        return Ok(()), false;
      }
      if inst.value.state != Stopped {
        return Err(NotStopped), false;
      }
      // A removal refused at this point means that the instance is gone already.
      var removed := state.Remove(id);
      return Ok(()), removed.Ok? && dialOk;
    }

    method BatchEnrichWithRuntime(infos: seq<Info>, answers: seq<RuntimeInfo>) returns (res: seq<Info>)
      ensures |res| == |infos|
      ensures forall i | 0 <= i < |infos| :: res[i] == Enrich(infos[i], ByName(answers))
    {
      var byName := map[];
      for i := 0 to |answers|
        invariant byName == ByName(answers[..i])
      {
        assert answers[..i + 1][..i] == answers[..i];
        byName := byName[answers[i].name := answers[i]];
      }
      assert answers[..|answers|] == answers;
      res := infos;
      for i := 0 to |infos|
        invariant |res| == |infos|
        invariant forall j | 0 <= j < |infos| :: res[j] == if j < i then Enrich(infos[j], byName) else infos[j]
      {
        if infos[i].name in byName {
          res := res[i := infos[i].(status := infos[i].status.(runtime := Some(byName[infos[i].name])))];
        }
      }
    }

    /** All the records in memory, brought into agreement with QEMU there and in the database. */
    method ListAndReconcile(ids: Option<seq<string>>) returns (instances: array<Instance>)
      requires state.Valid()
      modifies state
      ensures state.Valid() && fresh(instances)
      ensures state.table == if ids.Some? then ReconciledTable(old(state.table), SetOf(ids.value)) else old(state.table)
      ensures Listing(state.table, instances[..])
      ensures forall x <- state.table :: state.table[x] in instances[..]
      ensures ids.Some? && ReconciledTable(old(state.table), SetOf(ids.value)) == old(state.table) ==>
                state.commits == old(state.commits)
    {
      hide Database.Valid, ReconciledTable, ReconcileWrites;
      ghost var before := state.table;
      var listed := state.List();
      instances := new Instance[|listed|](i requires 0 <= i < |listed| => listed[i]);
      assert instances[..] == listed;
      ListedIds(before, listed);
      if ids.Some? {
        ReconcileFullList(before, listed, SetOf(ids.value));
      }
      ReconcileInstances(instances, ids);
      if ids.Some? {
        ReconciledListing(before, listed, SetOf(ids.value), instances[..]);
      }
    }

    /** The infos of some records, with one batched runtime query if any of them is running. */
    method CollectInfos(instances: array<Instance>, answers: Option<seq<RuntimeInfo>>, ghost rows: Table)
      returns (res: seq<Info>)
      requires forall i | 0 <= i < instances.Length :: instances[i].id in rows && rows[instances[i].id] == instances[i]
      requires forall x <- rows :: rows[x] in instances[..]
      ensures |res| == instances.Length
      ensures forall i | 0 <= i < |res| :: res[i] == Enrich(ToInfo(instances[i]), RuntimeFor(rows, answers))
    {
      var runningIds: seq<string> := [];
      res := [];
      for i := 0 to instances.Length
        invariant |res| == i
        invariant forall j | 0 <= j < i :: res[j] == ToInfo(instances[j])
        invariant runningIds != [] <==> exists j | 0 <= j < i :: instances[j].state == Running
      {
        if instances[i].state == Running {
          runningIds := runningIds + [instances[i].id];
        }
        res := res + [ToInfo(instances[i])];
      }
      if runningIds != [] && answers.Some? {
        res := BatchEnrichWithRuntime(res, answers.value);
      }
    }

    /**
      The info of one instance, or of all of them after reconciling the list with QEMU.
      `ids` is QEMU's answer to the list query and `answers` its answer to the runtime query.
     */
    method Info(id: string, ids: Option<seq<string>>, answers: Option<seq<RuntimeInfo>>)
      returns (r: Result<seq<Info>, NodeError>, ghost runtime: map<string, RuntimeInfo>)
      requires state.Valid()
      modifies state
      ensures state.Valid()
      ensures id != "" ==> state.table == old(state.table)
      ensures id == "" ==>
                state.table == if ids.Some? then ReconciledTable(old(state.table), SetOf(ids.value))
                else old(state.table)
      ensures r.Err? <==> id != "" && id !in state.table
      ensures r.Ok? && id != "" ==> r.value == [Enrich(ToInfo(state.table[id]), runtime)]
      ensures r.Ok? && id == "" ==> Reports(r.value, View(state.table, runtime))
      ensures r.Ok? ==> runtime == RuntimeFor(if id == "" then state.table else map[id := state.table[id]], answers)
      ensures r.Ok? ==>
                forall info <- r.value ::
                  Truthful(info, if id == "" then state.table else map[id := state.table[id]], answers)
    {
      var instances: array<Instance>;
      if id == "" {
        instances := ListAndReconcile(ids);
      } else {
        var inst := state.Get(id);
        if inst.Err? {
          return Err(NotFound), map[];
        }
        instances := new Instance[1](_ => inst.value);
        assert instances[..][0] == inst.value;
      }
      ghost var rows := if id == "" then state.table else map[id := state.table[id]];
      runtime := RuntimeFor(rows, answers);
      assert forall i | 0 <= i < instances.Length :: instances[..][i] in instances[..];
      var infos := CollectInfos(instances, answers, rows);
      forall i | 0 <= i < |infos|
        ensures Truthful(infos[i], rows, answers)
      {
        InfoIsTruthful(rows, instances[i], answers);
      }
      if id == "" {
        ListingReported(state.table, instances[..], runtime, infos);
      }
      r := Ok(infos);
    }
  }

  /** The runtime answers that enter the infos: none unless some record is running. */
  ghost function RuntimeFor(rows: Table, answers: Option<seq<RuntimeInfo>>): map<string, RuntimeInfo> {
    if answers.Some? && exists x <- rows :: rows[x].state == Running then ByName(answers.value) else map[]
  }

  /**
    An info says what the record of its name says, with the last runtime answer of
    that name if the runtime query was made and answered, and none otherwise.
   */
  ghost predicate Truthful(info: Info, rows: Table, answers: Option<seq<RuntimeInfo>>) {
    && info.name in rows && Describes(info, rows[info.name])
    && forall a: RuntimeInfo ::
         info.status.runtime == Some(a) <==>
         && answers.Some? && LastAnswer(answers.value, info.name, a)
         && exists x <- rows :: rows[x].state == Running
  }

  lemma InfoIsTruthful(rows: Table, inst: Instance, answers: Option<seq<RuntimeInfo>>)
    requires inst.id in rows && rows[inst.id] == inst
    ensures Truthful(Enrich(ToInfo(inst), RuntimeFor(rows, answers)), rows, answers)
  {
    if answers.Some? {
      forall a: RuntimeInfo
        ensures inst.id in ByName(answers.value) && ByName(answers.value)[inst.id] == a <==>
                LastAnswer(answers.value, inst.id, a)
      {
        ByNameIsLast(answers.value, inst.id, a);
      }
    }
    hide LastAnswer, ByName;
  }

  /** The infos of a view, each once and in id order. */
  ghost predicate Reports(infos: seq<Info>, view: map<string, Info>) {
    && Ascending(Names(infos))
    && (forall info <- infos :: info.name in view && info == view[info.name])
    && (forall n <- view :: n in Names(infos))
  }

  function Names(infos: seq<Info>): (names: seq<string>)
    ensures |names| == |infos|
    ensures forall i | 0 <= i < |infos| :: names[i] == infos[i].name
  {
    seq(|infos|, i requires 0 <= i < |infos| => infos[i].name)
  }
}
