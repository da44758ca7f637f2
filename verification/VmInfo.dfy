/** What a node reports about an instance, and how it is derived from the stored record and the runtime query. */
module VmInfo {
  import opened Wrappers
  import opened InstanceStore

  datatype RuntimeInfo = RuntimeInfo(name: string, ipaddresses: seq<string>, memoryUsed: Option<nat>,
                                     diskUsed: Option<nat>)

  datatype VmSpec = VmSpec(vm: Option<Hardware>, image: string, cloudInit: Option<CloudInit>)

  datatype VmStatus = VmStatus(state: VmState, hwaddr: string, runtime: Option<RuntimeInfo>)

  datatype Info = Info(name: string, spec: VmSpec, status: VmStatus)

  function ToInfo(inst: Instance): Info {
    Info(inst.id,
         VmSpec(inst.hardware, inst.imageId, inst.cloudInit),
         VmStatus(inst.state, if inst.hwaddr.Some? then inst.hwaddr.value else "", None))
  }

  /** The info says what the record says: name, state, image, hardware, cloud-init data and address. */
  predicate Describes(info: Info, inst: Instance) {
    && info.name == inst.id
    && info.status.state == inst.state
    && info.spec.image == inst.imageId
    && info.spec.vm == inst.hardware
    && info.spec.cloudInit == inst.cloudInit
    && info.status.hwaddr == (match inst.hwaddr case Some(mac) => mac case None => "")
  }

  /** Two records give the same info exactly if they agree on all but the node; no address shows like an empty one. */
  lemma SameInfoExactly(a: Instance, b: Instance)
    ensures Describes(ToInfo(a), a)
    ensures ToInfo(a) == ToInfo(b) <==>
            && a.id == b.id && a.state == b.state && a.imageId == b.imageId
            && a.hardware == b.hardware && a.cloudInit == b.cloudInit
            && (a.hwaddr == b.hwaddr || {a.hwaddr, b.hwaddr} == {None, Some("")})
  {
    assert a.hwaddr in {a.hwaddr, b.hwaddr} && b.hwaddr in {a.hwaddr, b.hwaddr};
  }

  /** The last answer for the name. */
  ghost predicate LastAnswer(answers: seq<RuntimeInfo>, name: string, answer: RuntimeInfo) {
    exists i :: 0 <= i < |answers| && answers[i] == answer && answer.name == name
                && forall j | i < j < |answers| :: answers[j].name != name
  }

  /** The runtime answers indexed by name; a later answer for the same name wins. */
  function ByName(answers: seq<RuntimeInfo>): (m: map<string, RuntimeInfo>)
    ensures forall n <- m :: m[n] in answers && m[n].name == n
    ensures forall a <- answers :: a.name in m
  {
    if answers == [] then map[]
    else
      var last := answers[|answers| - 1];
      ByName(answers[..|answers| - 1])[last.name := last]
  }

  lemma OneMoreAnswer(answers: seq<RuntimeInfo>, name: string, answer: RuntimeInfo)
    requires answers != []
    ensures
      var front, last := answers[..|answers| - 1], answers[|answers| - 1];
      LastAnswer(answers, name, answer) <==>
      if last.name == name then answer == last else LastAnswer(front, name, answer)
  {
    var n := |answers| - 1;
    var front, last := answers[..n], answers[n];
    assert forall j | 0 <= j < n :: front[j] == answers[j];
    if i :| 0 <= i < n && front[i] == answer && answer.name == name && forall j | i < j < n :: front[j].name != name {
      assert answers[i] == answer;
    }
    if i :| 0 <= i < n && answers[i] == answer && answer.name == name
            && forall j | i < j <= n :: answers[j].name != name
    {
      assert front[i] == answer;
    }
    assert last.name == name && answer == last ==> answers[n] == answer;
  }

  lemma {:induction false} ByNameIsLast(answers: seq<RuntimeInfo>, name: string, answer: RuntimeInfo)
    ensures name in ByName(answers) && ByName(answers)[name] == answer <==> LastAnswer(answers, name, answer)
  {
    if answers != [] {
      ByNameIsLast(answers[..|answers| - 1], name, answer);
      OneMoreAnswer(answers, name, answer);
      hide LastAnswer;
    }
  }

  function Enrich(info: Info, runtime: map<string, RuntimeInfo>): Info {
    if info.name in runtime then info.(status := info.status.(runtime := Some(runtime[info.name]))) else info
  }

  /** The view of a whole table. */
  function View(table: Table, runtime: map<string, RuntimeInfo>): map<string, Info> {
    map id | id in table :: Enrich(ToInfo(table[id]), runtime)
  }
}
