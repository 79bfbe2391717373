/** The VSatellites registered with the tenant: which are stale, and which one belongs to a container. */
module Tenant {
  import opened Text

  datatype EdgeInstance = EdgeInstance(id: string, name: string, edgeStatus: string, pairingCodeId: string,
                                       environment: string, environmentID: string, integrationServicesCount: int)

  /** Left over from an earlier attempt in the same environment: not connected, not in use. */
  predicate Stale(inst: EdgeInstance, env: string) {
    && (if inst.environmentID == "" then inst.environment else inst.environmentID) == env
    && !EqualFold(inst.edgeStatus, "ACTIVE") && !EqualFold(inst.edgeStatus, "CONNECTED")
    && inst.integrationServicesCount == 0
    && Trim(inst.id) != ""
  }

  function StaleIds(instances: seq<EdgeInstance>, env: string): seq<string> {
    if |instances| == 0 then []
    else
      var last := instances[|instances| - 1];
      StaleIds(instances[..|instances| - 1], env) + if Stale(last, env) then [Trim(last.id)] else []
  }

  lemma {:induction false} StaleIdsPrefix(instances: seq<EdgeInstance>, env: string, k: nat)
    requires k <= |instances|
    ensures StaleIds(instances[..k], env) <= StaleIds(instances, env)
    decreases |instances| - k
  {
    if k == |instances| {
      assert instances[..k] == instances;
    } else {
      StaleIdsPrefix(instances, env, k + 1);
      assert instances[..k + 1][..k] == instances[..k];
    }
  }

  lemma StaleIdsNext(instances: seq<EdgeInstance>, env: string, i: nat)
    requires i < |instances|
    ensures StaleIds(instances[..i + 1], env) == StaleIds(instances[..i], env) + if Stale(instances[i], env) then [Trim(instances[i].id)] else []
    ensures StaleIds(instances[..i + 1], env) <= StaleIds(instances, env)
  {
    assert instances[..i + 1][..i] == instances[..i];
    StaleIdsPrefix(instances, env, i + 1);
    hide Stale;
  }

  /** An id is asked to be deleted exactly if a stale instance has it. */
  lemma {:induction false} StaleIdsMeaning(instances: seq<EdgeInstance>, env: string, id: string)
    ensures id in StaleIds(instances, env) <==> exists k :: 0 <= k < |instances| && Stale(instances[k], env) && Trim(instances[k].id) == id
  {
    if |instances| > 0 {
      var less, last := instances[..|instances| - 1], instances[|instances| - 1];
      StaleIdsMeaning(less, env, id);
      if id in StaleIds(less, env) {
        var k :| 0 <= k < |less| && Stale(less[k], env) && Trim(less[k].id) == id;
        assert instances[k] == less[k];
      }
      if k :| 0 <= k < |instances| && Stale(instances[k], env) && Trim(instances[k].id) == id {
        if k < |less| {
          assert less[k] == instances[k];
        }
      }
    }
  }

  /** The list of the instances, if it can be had. */
  datatype Listing = Unavailable | Instances(list: seq<EdgeInstance>)

  /**
    Asks for every stale instance to be deleted, in order, and stops at the first refusal.
    `works[k]` is the answer to the k-th request; without a list it fails at once.
    */
  method DeleteStaleEdgeInstances(listing: Listing, env: string, works: seq<bool>) returns (ok: bool, asked: seq<string>)
    requires listing.Instances? ==> |works| >= |listing.list|
    ensures listing == Unavailable ==> !ok && asked == []
    ensures |asked| <= |works|
    ensures listing.Instances? ==> asked <= StaleIds(listing.list, env)
    ensures listing.Instances? ==> (ok <==> asked == StaleIds(listing.list, env) && forall k :: 0 <= k < |asked| ==> works[k])
    ensures listing.Instances? && !ok ==> 0 < |asked| && !works[|asked| - 1] && forall k :: 0 <= k < |asked| - 1 ==> works[k]
  {
    asked := [];
    if listing == Unavailable {
      return false, asked;
    }
    assert StaleIds(listing.list[..0], env) == [];
    hide StaleIds, EqualFold, Trim;
    var instances := listing.list;
    for i := 0 to |instances|
      invariant asked == StaleIds(instances[..i], env) && |asked| <= i
      invariant forall k :: 0 <= k < |asked| ==> works[k]
    {
      var inst := instances[i];
      StaleIdsNext(instances, env, i);
      var environment := inst.environmentID;
      if environment == "" {
        environment := inst.environment;
      }
      if environment != env {
        continue;
      }
      if EqualFold(inst.edgeStatus, "ACTIVE") || EqualFold(inst.edgeStatus, "CONNECTED") {
        continue;
      }
      if inst.integrationServicesCount != 0 {
        continue;
      }
      var id := Trim(inst.id);
      if id == "" {
        continue;
      }
      asked := asked + [id];
      if !works[|asked| - 1] {
        return false, asked;
      }
    }
    assert instances[..|instances|] == instances;
    ok := true;
  }

  // ---------------------------------------------------------------- the instance of a container

  /** By the pairing code it was registered with, or by its name. */
  predicate Belongs(inst: EdgeInstance, pairingCodeId: string, name: string) {
    && ((pairingCodeId != "" && inst.pairingCodeId == pairingCodeId) || (name != "" && inst.name == name))
    && Trim(inst.id) != ""
  }

  /** The first in the order of the list. */
  function Found(instances: seq<EdgeInstance>, pairingCodeId: string, name: string): string {
    if |instances| == 0 then ""
    else if Belongs(instances[0], pairingCodeId, name) then Trim(instances[0].id)
    else Found(instances[1..], pairingCodeId, name)
  }

  lemma {:induction false} FoundFirst(instances: seq<EdgeInstance>, pairingCodeId: string, name: string, k: nat)
    requires k < |instances| && Belongs(instances[k], pairingCodeId, name)
    requires forall j :: 0 <= j < k ==> !Belongs(instances[j], pairingCodeId, name)
    ensures Found(instances, pairingCodeId, name) == Trim(instances[k].id)
  {
    if k > 0 {
      FoundFirst(instances[1..], pairingCodeId, name, k - 1);
    }
  }

  lemma {:induction false} FoundNone(instances: seq<EdgeInstance>, pairingCodeId: string, name: string)
    ensures Found(instances, pairingCodeId, name) == "" <==> forall k :: 0 <= k < |instances| ==> !Belongs(instances[k], pairingCodeId, name)
  {
    if |instances| > 0 {
      FoundNone(instances[1..], pairingCodeId, name);
      assert forall k :: 0 < k < |instances| ==> instances[k] == instances[1..][k - 1];
    }
  }

  /**
    The instance registered with the pairing code is the one that is found, if and only if no
    other one with the name of the container stands before it in the list.
    */
  lemma PairedIsFound(instances: seq<EdgeInstance>, pairingCodeId: string, name: string, k: nat)
    requires k < |instances| && pairingCodeId != "" && instances[k].pairingCodeId == pairingCodeId && Trim(instances[k].id) != ""
    requires forall j :: 0 <= j < |instances| && j != k ==> instances[j].pairingCodeId != pairingCodeId && Trim(instances[j].id) != Trim(instances[k].id)
    ensures Found(instances, pairingCodeId, name) == Trim(instances[k].id)
       <==> forall j :: 0 <= j < k ==> !(name != "" && instances[j].name == name && Trim(instances[j].id) != "")
  {
    if first :| 0 <= first < k && Belongs(instances[first], pairingCodeId, name) {
      var j := FirstBelonging(instances, pairingCodeId, name, first);
      FoundFirst(instances, pairingCodeId, name, j);
      assert instances[j].name == name;
    } else {
      FoundFirst(instances, pairingCodeId, name, k);
    }
  }

  /** The failing input: an instance that was renamed to the container's name stands before the one that was paired. */
  lemma OtherIsFound()
    ensures Found([EdgeInstance("1", "vsat", "", "q", "", "", 0), EdgeInstance("2", "other", "", "p", "", "", 0)], "p", "vsat") == "1"
  {
    assert Trim("1") == "1";
  }

  lemma {:induction false} FirstBelonging(instances: seq<EdgeInstance>, pairingCodeId: string, name: string, k: nat) returns (j: nat)
    requires k < |instances| && Belongs(instances[k], pairingCodeId, name)
    ensures j <= k && Belongs(instances[j], pairingCodeId, name)
    ensures forall i :: 0 <= i < j ==> !Belongs(instances[i], pairingCodeId, name)
  {
    if i :| 0 <= i < k && Belongs(instances[i], pairingCodeId, name) {
      j := FirstBelonging(instances, pairingCodeId, name, i);
    } else {
      j := k;
    }
  }

  method FindInstance(instances: seq<EdgeInstance>, pairingCodeId: string, name: string) returns (id: string)
    ensures id == Found(instances, pairingCodeId, name)
  {
    id := "";
    for i := 0 to |instances|
      invariant id == "" && Found(instances, pairingCodeId, name) == Found(instances[i..], pairingCodeId, name)
    {
      var inst := instances[i];
      assert instances[i..][0] == inst && instances[i..][1..] == instances[i + 1..];
      if pairingCodeId != "" && inst.pairingCodeId == pairingCodeId {
        id := Trim(inst.id);
      } else if name != "" && inst.name == name {
        id := Trim(inst.id);
      }
      if id != "" {
        return;
      }
    }
  }

  /** What became of the registration. */
  datatype Deletion = NothingToDo | ListFailed | NotRegistered | Asked(id: string, works: bool)

  /** The two delete functions of the source once they have found that they have credentials. */
  method DeleteRegistered(edgeInstanceId: string, pairingCodeId: string, name: string, listing: Listing, works: bool)
    returns (ok: bool, what: Deletion)
    ensures what != NothingToDo
    ensures ok <==> what == NotRegistered || (what.Asked? && what.works)
    ensures what == ListFailed <==> Trim(edgeInstanceId) == "" && listing == Unavailable
    ensures what == NotRegistered <==>
            (Trim(edgeInstanceId) == "" && listing.Instances? && Found(listing.list, Trim(pairingCodeId), Trim(name)) == "")
    ensures what.Asked? ==> what.works == works && what.id != "" && (Trim(edgeInstanceId) != "" || listing.Instances?)
    ensures what.Asked? ==> what.id == if Trim(edgeInstanceId) != "" then Trim(edgeInstanceId)
                                       else Found(listing.list, Trim(pairingCodeId), Trim(name))
  {
    var id := Trim(edgeInstanceId);
    if id == "" {
      match listing {
        case Unavailable =>
          return false, ListFailed;
        case Instances(list) =>
          id := FindInstance(list, Trim(pairingCodeId), Trim(name));
      }
    }
    if id == "" {
      return true, NotRegistered;
    }
    return works, Asked(id, works);
  }
}
