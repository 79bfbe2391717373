/**
  Installing and removing VSatellites, by any number of requests at the same time.

  A request is a sequence of steps.  Between two steps of one request any steps of others may
  happen, and every call to the outside may fail.
  */
module Lifecycle {
  import opened Common
  import opened Text
  import opened ConfigStore
  import opened Tenant

  const BACKEND_CCM := "ccm"
  const BACKEND_NGTS := "ngts"
  const DEFAULT_NGTS_BASE := "https://api.strata.paloaltonetworks.com/ngts/"
  const SCM_TENANT_URL_BASE := "https://stratacloudmanager.paloaltonetworks.com/"

  const NO_METADATA := ContainerMetadata("", "", "", "", "", "", "", "", "", "", "")

  /** The form that was filled in. */
  datatype Form = CCM(apiKey: string) | NGTS(clientId: string, clientSecret: string, tsgId: string)

  datatype InstallStage = Probing | FetchingTenant | DeletingStale | CreatingPairing | EnsuringTool | Installing | Polling | Renaming

  datatype RemoveStage = Uninstalling | ReadingMetadata | DeletingInstance | RemovingContainer | DroppingMetadata

  /** `metadata` is what has been found out so far, or for a removal what was read. */
  datatype Job =
    | Install(name: string, form: Form, installing: InstallStage, metadata: ContainerMetadata)
    | Remove(name: string, removing: RemoveStage, metadata: ContainerMetadata)
    | Done(ok: bool)

  /** What comes back from the outside. */
  datatype Reply =
    | Failed
    | Worked
    | Region(base: string)
    | Environment(id: string, companyId: string)
    | TenantInfo(tenantUrl: string, companyId: string, organizationId: string)
    | Pairing(code: string, id: string)
    | Renamed(edgeInstanceId: string)
    | Deleting(listing: Listing, works: bool)

  type MetadataMap = map<string, ContainerMetadata>

  /** What requests have done, by request and container.  `Read` tells what a removal found. */
  datatype Event =
    | Saved(r: nat, name: string, metadata: ContainerMetadata)
    | Uninstalled(r: nat, name: string)
    | Read(r: nat, name: string, found: Option<ContainerMetadata>)
    | InstanceDeleted(r: nat, name: string)
    | ContainerDeleted(r: nat, name: string)
    | Dropped(r: nat, name: string)

  /** The metadata as the events leave them, from those that were stored before. */
  function Replay(stored: MetadataMap, log: seq<Event>): MetadataMap {
    if |log| == 0 then stored
    else
      var before := Replay(stored, log[..|log| - 1]);
      match log[|log| - 1]
      case Saved(_, n, m) => before[n := m]
      case Dropped(_, n) => before - {n}
      case _ => before
  }

  function Lookup(metadata: MetadataMap, name: string): Option<ContainerMetadata> {
    if name in metadata then Some(metadata[name]) else None
  }

  predicate Concerns(e: Event, name: string) {
    (e.Saved? || e.Dropped?) && e.name == name
  }

  ghost predicate UnconcernedSince(log: seq<Event>, from: nat, name: string) {
    forall j :: from <= j < |log| ==> !Concerns(log[j], name)
  }

  /** Nothing happens to a container that no event concerns. */
  lemma {:induction false} Unconcerned(stored: MetadataMap, log: seq<Event>, from: nat, name: string)
    requires from <= |log| && UnconcernedSince(log, from, name)
    ensures Lookup(Replay(stored, log), name) == Lookup(Replay(stored, log[..from]), name)
    decreases |log|
  {
    if from < |log| {
      Unconcerned(stored, log[..|log| - 1], from, name);
      assert log[..|log| - 1][..from] == log[..from];
    } else {
      assert log[..from] == log;
    }
  }

  /** What an event leaves for the container it concerns. */
  function LeftBy(e: Event): Option<ContainerMetadata> {
    if e.Saved? then Some(e.metadata) else None
  }

  lemma {:induction false} LastDecides(stored: MetadataMap, log: seq<Event>, i: nat)
    requires i < |log| && Concerns(log[i], log[i].name) && UnconcernedSince(log, i + 1, log[i].name)
    ensures Lookup(Replay(stored, log), log[i].name) == LeftBy(log[i])
  {
    Unconcerned(stored, log, i + 1, log[i].name);
    assert log[..i + 1][..i] == log[..i];
  }

  /** Whatever is done to other containers, what was saved for one stays until something is saved or dropped for it. */
  lemma SavedStays(stored: MetadataMap, log: seq<Event>, i: nat)
    requires i < |log| && log[i].Saved?
    requires forall j :: i < j < |log| ==> !Concerns(log[j], log[i].name)
    ensures log[i].name in Replay(stored, log) && Replay(stored, log)[log[i].name] == log[i].metadata
  {
    LastDecides(stored, log, i);
    hide Replay;
  }

  lemma {:induction false} LastConcern(log: seq<Event>, from: nat, name: string) returns (i: nat)
    requires from <= |log| && !UnconcernedSince(log, from, name)
    ensures from <= i < |log| && Concerns(log[i], name) && UnconcernedSince(log, i + 1, name)
    decreases |log|
  {
    var n := |log| - 1;
    if Concerns(log[n], name) {
      i := n;
    } else {
      i := LastConcern(log[..n], from, name);
      assert forall j :: i + 1 <= j < n ==> log[j] == log[..n][j];
    }
  }

  /** What is there for a container was the last thing saved for it, or was stored before and never touched. */
  lemma OnlySavedIsThere(stored: MetadataMap, log: seq<Event>, name: string)
    requires name in Replay(stored, log)
    ensures || (name in stored && Replay(stored, log)[name] == stored[name] && UnconcernedSince(log, 0, name))
            || exists i :: 0 <= i < |log| && log[i].Saved? && log[i].name == name && log[i].metadata == Replay(stored, log)[name]
                           && forall j :: i < j < |log| ==> !Concerns(log[j], name)
  {
    if UnconcernedSince(log, 0, name) {
      Unconcerned(stored, log, 0, name);
      assert log[..0] == [];
    } else {
      var i := LastConcern(log, 0, name);
      LastDecides(stored, log, i);
      hide Replay;
    }
  }

  /** In between something else came to stand there for the container. */
  ghost predicate ReplacedBetween(log: seq<Event>, j: nat, i: nat, name: string, found: Option<ContainerMetadata>) {
    exists k :: j < k < i && i <= |log| && Concerns(log[k], name) && UnconcernedSince(log[..i], k + 1, name) && LeftBy(log[k]) != found
  }

  /**
    A removal drops the metadata it has read, with which it deleted the registration, if and only
    if no other metadata have been saved for the container since.
    */
  lemma DroppedAsRead(stored: MetadataMap, log: seq<Event>, j: nat, i: nat)
    requires j < i < |log| && log[j].Read? && log[j].found == Lookup(Replay(stored, log[..j]), log[j].name)
    requires log[i] == Dropped(log[j].r, log[j].name)
    ensures Lookup(Replay(stored, log[..i]), log[j].name) == log[j].found <==> !ReplacedBetween(log, j, i, log[j].name, log[j].found)
  {
    var name, before := log[j].name, log[..i];
    assert before[..j + 1][..j] == log[..j];
    hide Replay;
    if UnconcernedSince(before, j, name) {
      Unconcerned(stored, before, j, name);
      assert before[..j] == log[..j];
      assert forall k :: j < k < i ==> before[k] == log[k];
    } else {
      var k := LastConcern(before, j, name);
      assert k != j && log[k] == before[k];
      LastDecides(stored, before, k);
      if ReplacedBetween(log, j, i, name, log[j].found) {
        var l :| j < l < i && Concerns(log[l], name) && UnconcernedSince(before, l + 1, name) && LeftBy(log[l]) != log[j].found;
        assert log[l] == before[l];
        assert k == l;
      }
    }
  }

  /** Enough to delete the registration with the tenant later. */
  predicate CanDelete(m: ContainerMetadata) {
    if m.backend == BACKEND_NGTS then Trim(m.clientId) != "" && Trim(m.clientSecret) != "" && Trim(m.tsgId) != ""
    else Trim(m.apiBaseUrl) != "" && Trim(m.apiKey) != ""
  }

  /** Metadata are saved only if they say something about the tenant. */
  predicate SaysTenant(m: ContainerMetadata) {
    m.tenantUrl != "" || m.companyId != "" || m.organizationId != ""
  }

  /** What must have happened before an event. */
  ghost predicate EventOk(stored: MetadataMap, log: seq<Event>, i: nat)
    requires i < |log|
  {
    match log[i]
    case Saved(_, _, m) => SaysTenant(m) && CanDelete(m)
    case Uninstalled(_, _) => true
    case Read(r, n, found) => Uninstalled(r, n) in log[..i] && found == Lookup(Replay(stored, log[..i]), n)
    case InstanceDeleted(r, n) => Uninstalled(r, n) in log[..i] && exists found :: Read(r, n, found) in log[..i]
    case ContainerDeleted(r, n) => InstanceDeleted(r, n) in log[..i]
    case Dropped(r, n) => ContainerDeleted(r, n) in log[..i]
  }

  ghost predicate LogOk(stored: MetadataMap, log: seq<Event>) {
    forall i :: 0 <= i < |log| ==> EventOk(stored, log, i)
  }

  lemma LogOkMore(stored: MetadataMap, log: seq<Event>, e: Event)
    requires LogOk(stored, log) && EventOk(stored, log + [e], |log|)
    ensures LogOk(stored, log + [e])
  {
    hide Replay;
    forall i | 0 <= i < |log + [e]| ensures EventOk(stored, log + [e], i) {
      if i < |log| {
        assert EventOk(stored, log, i) && (log + [e])[..i] == log[..i];
      }
    }
  }

  predicate Paired(stage: InstallStage) {
    stage in {EnsuringTool, Installing, Polling, Renaming}
  }

  /** Where a request stands, as told by the events. */
  ghost predicate JobOk(job: Job, r: nat, log: seq<Event>) {
    match job
    case Install(n, form, stage, m) =>
      && (stage != Probing ==> CanDelete(m) && m.backend == if form.NGTS? then BACKEND_NGTS else BACKEND_CCM)
      && (form.NGTS? && stage != Probing ==> SaysTenant(m))
      && (form.NGTS? ==> stage != FetchingTenant && Trim(form.clientId) != "" && Trim(form.clientSecret) != "" && Trim(form.tsgId) != "")
      && (form.CCM? ==> Trim(form.apiKey) != "")
      && (Paired(stage) ==> m.pairingCodeId != "" && (SaysTenant(m) ==> Saved(r, n, m) in log))
    case Remove(n, stage, m) =>
      && (stage in {ReadingMetadata, DeletingInstance} ==> Uninstalled(r, n) in log)
      && (stage == DeletingInstance ==> exists found :: Read(r, n, found) in log && m == if found.Some? then found.value else NO_METADATA)
      && (stage == RemovingContainer ==> InstanceDeleted(r, n) in log)
      && (stage == DroppingMetadata ==> ContainerDeleted(r, n) in log)
    case Done(_) => true
  }

  lemma JobsOkMore(jobs: seq<Job>, log: seq<Event>, more: seq<Event>)
    requires forall r :: 0 <= r < |jobs| ==> JobOk(jobs[r], r, log)
    ensures forall r :: 0 <= r < |jobs| ==> JobOk(jobs[r], r, log + more)
  {
  }

  /** Whether the registration is gone afterwards, or there was none. */
  predicate DeletionWorks(m: ContainerMetadata, name: string, listing: Listing, works: bool) {
    || !CanDelete(m)
    || (Trim(m.edgeInstanceId) != "" && works)
    || (Trim(m.edgeInstanceId) == "" && listing.Instances? && (works || Found(listing.list, Trim(m.pairingCodeId), Trim(name)) == ""))
  }

  /** Whether a reply lets a request go on. */
  predicate Accepted(job: Job, reply: Reply) {
    match job
    case Install(_, form, stage, _) => (
      match stage
      case Probing => if form.NGTS? then reply.Environment? && Trim(reply.id) != "" else reply.Region? && Trim(reply.base) != ""
      case FetchingTenant => true
      case CreatingPairing => reply.Pairing? && reply.code != "" && reply.id != ""
      case Renaming => reply.Renamed?
      case _ => reply.Worked?)
    case Remove(name, stage, m) => (
      match stage
      case ReadingMetadata => true
      case DeletingInstance => DeletionWorks(m, name, if reply.Deleting? then reply.listing else Unavailable, reply.Deleting? && reply.works)
      case DroppingMetadata => true
      case _ => reply.Worked?)
    case Done(_) => true
  }

  /** How far a request has come; 8 is the end. */
  function Rank(job: Job): nat {
    match job
    case Install(_, form, stage, _) => (
      match stage
      case Probing => if form.NGTS? then 1 else 0
      case FetchingTenant => 1
      case DeletingStale => 2
      case CreatingPairing => 3
      case EnsuringTool => 4
      case Installing => 5
      case Polling => 6
      case Renaming => 7)
    case Remove(_, stage, _) => (
      match stage
      case Uninstalling => 3
      case ReadingMetadata => 4
      case DeletingInstance => 5
      case RemovingContainer => 6
      case DroppingMetadata => 7)
    case Done(_) => 8
  }

  /** What a removal has done once a stage worked. */
  function RemoveEvents(r: nat, job: Job, found: Option<ContainerMetadata>): seq<Event>
    requires job.Remove?
  {
    match job.removing
    case Uninstalling => [Uninstalled(r, job.name)]
    case ReadingMetadata => [Read(r, job.name, found)]
    case DeletingInstance => [InstanceDeleted(r, job.name)]
    case RemovingContainer => [ContainerDeleted(r, job.name)]
    case DroppingMetadata => [Dropped(r, job.name)]
  }

  /** The next stage of a removal, which keeps what it has read. */
  function RemoveNext(job: Job, found: Option<ContainerMetadata>): Job
    requires job.Remove?
  {
    match job.removing
    case Uninstalling => job.(removing := ReadingMetadata)
    case ReadingMetadata => job.(removing := DeletingInstance, metadata := if found.Some? then found.value else NO_METADATA)
    case DeletingInstance => job.(removing := RemovingContainer)
    case RemovingContainer => job.(removing := DroppingMetadata)
    case DroppingMetadata => Done(true)
  }

  /** A step goes one stage on, or ends the request. */
  ghost predicate Stepped(before: Job, reply: Reply, after: Job) {
    if Accepted(before, reply) then Rank(after) == Rank(before) + 1 && after != Done(false) else after == Done(false)
  }

  /** The metadata, if any, read before the calls to the tenant. */
  method DeleteTenantEdgeInstance(m: ContainerMetadata, name: string, listing: Listing, works: bool) returns (ok: bool, what: Deletion)
    ensures what == NothingToDo <==> !CanDelete(m)
    ensures ok <==> what == NothingToDo || what == NotRegistered || (what.Asked? && what.works)
    ensures what.Asked? ==> what.id != "" && what.works == works
    ensures ok <==> DeletionWorks(m, name, listing, works)
    ensures what == NotRegistered ==> listing.Instances? && Found(listing.list, Trim(m.pairingCodeId), Trim(name)) == ""
  {
    if m.backend == BACKEND_NGTS {
      if Trim(m.clientId) == "" || Trim(m.clientSecret) == "" || Trim(m.tsgId) == "" {
        return true, NothingToDo;
      }
    } else if Trim(m.apiBaseUrl) == "" || Trim(m.apiKey) == "" {
      return true, NothingToDo;
    }
    ok, what := DeleteRegistered(m.edgeInstanceId, m.pairingCodeId, name, listing, works);
  }

  /** Every field of the form is filled in. */
  predicate Complete(form: Form) {
    match form
    case CCM(apiKey) => Trim(apiKey) != ""
    case NGTS(clientId, clientSecret, tsgId) => Trim(clientId) != "" && Trim(clientSecret) != "" && Trim(tsgId) != ""
  }

  /** The first metadata of an installation with NGTS. */
  function NgtsMetadata(form: Form, companyId: string): ContainerMetadata
    requires form.NGTS?
  {
    NO_METADATA.(backend := BACKEND_NGTS, tenantUrl := SCM_TENANT_URL_BASE + "?tsg_id=" + Trim(form.tsgId), companyId := Trim(form.tsgId),
                 organizationId := Trim(companyId), apiBaseUrl := DEFAULT_NGTS_BASE,
                 clientId := Trim(form.clientId), clientSecret := Trim(form.clientSecret), tsgId := Trim(form.tsgId))
  }

  lemma NgtsMetadataOk(form: Form, companyId: string)
    requires form.NGTS? && Trim(form.clientId) != "" && Trim(form.clientSecret) != "" && Trim(form.tsgId) != ""
    ensures CanDelete(NgtsMetadata(form, companyId)) && SaysTenant(NgtsMetadata(form, companyId))
  {
    TrimMeaning(form.clientId);
    TrimMeaning(form.clientSecret);
    TrimMeaning(form.tsgId);
    hide Trim;
  }

  /** The first metadata of an installation with CCM. */
  function CcmMetadata(form: Form, base: string): ContainerMetadata
    requires form.CCM?
  {
    NO_METADATA.(backend := BACKEND_CCM, apiBaseUrl := base, apiKey := Trim(form.apiKey))
  }

  /**
    Each backend finds the credentials of its own form in the metadata, trimmed, and nothing of the
    other's; the edge instance and the pairing are not known yet.
    */
  lemma FormIsKept(ngts: Form, ccm: Form, companyId: string, base: string)
    requires ngts.NGTS? && ccm.CCM?
    ensures var m := NgtsMetadata(ngts, companyId);
            && m.backend == "ngts" && m.clientId == Trim(ngts.clientId) && m.clientSecret == Trim(ngts.clientSecret)
            && m.tsgId == Trim(ngts.tsgId) && m.companyId == m.tsgId && m.organizationId == Trim(companyId)
            && |m.tenantUrl| >= |m.tsgId| && m.tenantUrl[|m.tenantUrl| - |m.tsgId|..] == m.tsgId
            && m.apiKey == "" && m.apiBaseUrl == DEFAULT_NGTS_BASE && m.edgeInstanceId == "" && m.pairingCodeId == ""
    ensures var m := CcmMetadata(ccm, base);
            && m.backend == "ccm" && m.apiKey == Trim(ccm.apiKey) && m.apiBaseUrl == base
            && m.clientId == "" && m.clientSecret == "" && m.tsgId == "" && m.tenantUrl == "" && m.companyId == "" && m.organizationId == ""
            && m.edgeInstanceId == "" && m.pairingCodeId == ""
  {
    hide Trim;
  }

  /** The stages of an installation that only call out. */
  function CalledOut(stage: InstallStage): InstallStage {
    match stage
    case DeletingStale => CreatingPairing
    case EnsuringTool => Installing
    case Installing => Polling
    case Polling => Renaming
    case other => other
  }

  predicate CallsOut(stage: InstallStage) {
    stage in {DeletingStale, EnsuringTool, Installing, Polling}
  }

  // ---------------------------------------------------------------- what a step comes to

  /** What the requests share and do. */
  datatype World = World(metadata: MetadataMap, jobs: seq<Job>, log: seq<Event>)

  datatype Action = BeginInstall(name: string, form: Form) | BeginRemove(name: string) | Continue(r: nat, reply: Reply)

  function SaveEvents(r: nat, name: string, m: ContainerMetadata): seq<Event> {
    if SaysTenant(m) then [Saved(r, name, m)] else []
  }

  /** What is known once a stage of an installation has gone well. */
  function Learned(job: Job, reply: Reply): ContainerMetadata
    requires job.Install? && Accepted(job, reply)
  {
    var m := job.metadata;
    match job.installing
    case Probing => if job.form.NGTS? then NgtsMetadata(job.form, reply.companyId) else CcmMetadata(job.form, reply.base)
    case FetchingTenant =>
      if reply.TenantInfo? then m.(tenantUrl := reply.tenantUrl, companyId := reply.companyId, organizationId := reply.organizationId) else m
    case CreatingPairing => m.(pairingCodeId := reply.id)
    case Renaming => m.(edgeInstanceId := reply.edgeInstanceId)
    case _ => m
  }

  /** What is known is saved when the tenant, the pairing or the instance has become known. */
  function InstallEvents(r: nat, job: Job, reply: Reply): seq<Event>
    requires job.Install? && Accepted(job, reply)
  {
    if CallsOut(job.installing) || (job.installing == Probing && job.form.CCM?) then []
    else SaveEvents(r, job.name, Learned(job, reply))
  }

  function InstallNext(job: Job, reply: Reply): Job
    requires job.Install? && Accepted(job, reply)
  {
    if job.installing == Renaming then Done(true)
    else
      Install(job.name, job.form,
              match job.installing {
                case Probing => if job.form.NGTS? then DeletingStale else FetchingTenant
                case FetchingTenant => DeletingStale
                case DeletingStale => CreatingPairing
                case CreatingPairing => EnsuringTool
                case EnsuringTool => Installing
                case Installing => Polling
                case _ => Renaming
              },
              Learned(job, reply))
  }

  function Events(w: World, r: nat, reply: Reply): seq<Event>
    requires r < |w.jobs|
  {
    var job := w.jobs[r];
    if job.Done? || !Accepted(job, reply) then []
    else if job.Install? then InstallEvents(r, job, reply)
    else RemoveEvents(r, job, Lookup(w.metadata, job.name))
  }

  function NextJob(w: World, r: nat, reply: Reply): Job
    requires r < |w.jobs|
  {
    var job := w.jobs[r];
    if job.Done? then job
    else if !Accepted(job, reply) then Done(false)
    else if job.Install? then InstallNext(job, reply)
    else RemoveNext(job, Lookup(w.metadata, job.name))
  }

  /** A request that is refused at once ends at once; a step of a request that has ended changes nothing. */
  function Performed(w: World, a: Action): World {
    match a
    case BeginInstall(name, form) => w.(jobs := w.jobs + [if Complete(form) then Install(name, form, Probing, NO_METADATA) else Done(false)])
    case BeginRemove(name) => w.(jobs := w.jobs + [Remove(name, Uninstalling, NO_METADATA)])
    case Continue(r, reply) =>
      if r >= |w.jobs| then w
      else
        var events := Events(w, r, reply);
        World(Replay(w.metadata, events), w.jobs[r := NextJob(w, r, reply)], w.log + events)
  }

  function PerformedAll(w: World, actions: seq<Action>): World {
    if |actions| == 0 then w else Performed(PerformedAll(w, actions[..|actions| - 1]), actions[|actions| - 1])
  }

  /** All replies to a request let it go on. */
  predicate AllAccepted(w: World, actions: seq<Action>, r: nat) {
    |actions| == 0 ||
    var n := |actions| - 1;
    var before := PerformedAll(w, actions[..n]);
    AllAccepted(w, actions[..n], r) && (actions[n].Continue? && actions[n].r == r && r < |before.jobs| ==> Accepted(before.jobs[r], actions[n].reply))
  }

  function Replies(actions: seq<Action>, r: nat): nat {
    if |actions| == 0 then 0
    else Replies(actions[..|actions| - 1], r) + if actions[|actions| - 1].Continue? && actions[|actions| - 1].r == r then 1 else 0
  }

  lemma ReplayNone(metadata: MetadataMap)
    ensures Replay(metadata, []) == metadata
  {
  }

  lemma ReplayOne(metadata: MetadataMap, e: Event)
    ensures Replay(metadata, [e]) == if e.Saved? then metadata[e.name := e.metadata] else if e.Dropped? then metadata - {e.name} else metadata
  {
    assert [e][..0] == [];
  }

  lemma OneStep(w: World, r: nat, reply: Reply)
    requires r < |w.jobs|
    ensures var before, after := w.jobs[r], NextJob(w, r, reply);
            if before.Done? then after == before
            else if !Accepted(before, reply) then after == Done(false)
            else Rank(after) == Rank(before) + 1 && after != Done(false)
  {
    hide DeletionWorks, NgtsMetadata, CcmMetadata, Trim;
  }

  /**
    Whatever other requests do in between: a request ends well if and only if every reply to it lets it
    go on and there are as many as it has stages left; it has failed exactly if one of them did not.
    */
  lemma {:induction false} EndsExactly(w: World, actions: seq<Action>, r: nat)
    requires r < |w.jobs| && !w.jobs[r].Done?
    ensures var after := PerformedAll(w, actions);
            && r < |after.jobs|
            && (after.jobs[r] == Done(true) <==> AllAccepted(w, actions, r) && Replies(actions, r) >= 8 - Rank(w.jobs[r]))
            && (after.jobs[r] == Done(false) <==> !AllAccepted(w, actions, r))
            && (!after.jobs[r].Done? ==> Rank(after.jobs[r]) == Rank(w.jobs[r]) + Replies(actions, r) < 8)
    decreases |actions|
  {
    if |actions| > 0 {
      var n := |actions| - 1;
      EndsExactly(w, actions[..n], r);
      var before := PerformedAll(w, actions[..n]);
      hide Accepted, NextJob, Rank;
      RankBelow(w.jobs[r]);
      RankBelow(before.jobs[r]);
      if actions[n].Continue? && actions[n].r < |before.jobs| {
        OneStep(before, actions[n].r, actions[n].reply);
        RankBelow(NextJob(before, actions[n].r, actions[n].reply));
        DoneAccepts(before.jobs[actions[n].r], actions[n].reply);
      }
    } else {
      RankBelow(w.jobs[r]);
    }
  }

  /** What a removal has done by the time it stands where it stands. */
  ghost predicate HasDone(job: Job, r: nat, name: string, log: seq<Event>) {
    match job
    case Remove(n, stage, _) =>
      && n == name
      && (stage != Uninstalling ==> Uninstalled(r, name) in log)
      && (stage in {RemovingContainer, DroppingMetadata} ==> InstanceDeleted(r, name) in log)
      && (stage == DroppingMetadata ==> ContainerDeleted(r, name) in log)
    case Done(ok) =>
      ok ==> Uninstalled(r, name) in log && InstanceDeleted(r, name) in log && ContainerDeleted(r, name) in log && Dropped(r, name) in log
    case _ => false
  }

  lemma HasDoneMore(w: World, r: nat, name: string, a: Action)
    requires r < |w.jobs| && HasDone(w.jobs[r], r, name, w.log)
    ensures var after := Performed(w, a); r < |after.jobs| && HasDone(after.jobs[r], r, name, after.log)
  {
    hide Replay, Accepted, Complete, InstallEvents, InstallNext;
    if a.Continue? && a.r == r {
      assert forall e :: e in Events(w, r, a.reply) ==> e in Performed(w, a).log;
    }
  }

  /** A removal that ends well has uninstalled, deleted the registration and the container, and dropped the metadata, whatever others did. */
  lemma {:induction false} RemovalDoes(w: World, actions: seq<Action>, r: nat)
    requires r < |w.jobs| && w.jobs[r].Remove? && w.jobs[r].removing == Uninstalling
    ensures var after := PerformedAll(w, actions);
            r < |after.jobs| && HasDone(after.jobs[r], r, w.jobs[r].name, after.log)
    decreases |actions|
  {
    if |actions| > 0 {
      hide Performed, HasDone;
      var n := |actions| - 1;
      RemovalDoes(w, actions[..n], r);
      HasDoneMore(PerformedAll(w, actions[..n]), r, w.jobs[r].name, actions[n]);
    }
  }

  lemma RankBelow(job: Job)
    ensures 0 <= Rank(job) <= 8 && (Rank(job) == 8 <==> job.Done?)
  {
  }

  lemma DoneAccepts(job: Job, reply: Reply)
    ensures job.Done? ==> Accepted(job, reply)
  {
  }

  class Server {
    /** The part of the configuration that requests share; every access is under the lock. */
    var metadata: MetadataMap
    var jobs: seq<Job>
    ghost var log: seq<Event>
    /** The metadata in the configuration that the server was started with. */
    ghost const stored: MetadataMap

    ghost predicate Valid()
      reads this
    {
      && metadata == Replay(stored, log) && LogOk(stored, log)
      && forall r :: 0 <= r < |jobs| ==> JobOk(jobs[r], r, log)
    }

    ghost function Now(): World
      reads this
    {
      World(metadata, jobs, log)
    }

    constructor (stored: MetadataMap)
      ensures Valid() && this.stored == stored == metadata && log == [] && jobs == []
    {
      this.stored, metadata, jobs, log := stored, stored, [], [];
    }

    method Record(e: Event)
      requires LogOk(stored, log) && EventOk(stored, log + [e], |log|) && (forall r :: 0 <= r < |jobs| ==> JobOk(jobs[r], r, log))
      modifies this`log
      ensures log == old(log) + [e] && LogOk(stored, log) && forall r :: 0 <= r < |jobs| ==> JobOk(jobs[r], r, log)
    {
      LogOkMore(stored, log, e);
      JobsOkMore(jobs, log, [e]);
      log := log + [e];
    }

    method SaveContainerMetadata(r: nat, name: string, m: ContainerMetadata)
      requires Valid() && CanDelete(m)
      modifies this`metadata, this`log
      ensures Valid() && metadata == if SaysTenant(m) then old(metadata)[name := m] else old(metadata)
      ensures log == if SaysTenant(m) then old(log) + [Saved(r, name, m)] else old(log)
    {
      if m.tenantUrl == "" && m.companyId == "" && m.organizationId == "" {
        return;
      }
      metadata := metadata[name := m];
      Record(Saved(r, name, m));
    }

    method RemoveContainerMetadata(r: nat, name: string)
      requires Valid() && ContainerDeleted(r, name) in log
      modifies this`metadata, this`log
      ensures Valid() && metadata == old(metadata) - {name} && log == old(log) + [Dropped(r, name)]
    {
      metadata := metadata - {name};
      assert (log + [Dropped(r, name)])[..|log|] == log;
      Record(Dropped(r, name));
    }

    /** A request moves on; `log` already tells what it did. */
    method Move(r: nat, job: Job)
      requires r < |jobs| && Valid() && JobOk(job, r, log)
      modifies this`jobs
      ensures Valid() && jobs == old(jobs)[r := job]
    {
      jobs := jobs[r := job];
    }

    method StartInstall(name: string, form: Form)
      requires Valid()
      modifies this`jobs
      ensures Valid() && old(jobs) <= jobs && |jobs| == |old(jobs)| + 1
      ensures jobs[|old(jobs)|] == if Complete(form) then Install(name, form, Probing, NO_METADATA) else Done(false)
    {
      var missing := match form
        case CCM(apiKey) => Trim(apiKey) == ""
        case NGTS(clientId, clientSecret, tsgId) => Trim(clientId) == "" || Trim(clientSecret) == "" || Trim(tsgId) == "";
      jobs := jobs + [if missing then Done(false) else Install(name, form, Probing, NO_METADATA)];
    }

    method StartRemove(name: string)
      requires Valid()
      modifies this`jobs
      ensures Valid() && jobs == old(jobs) + [Remove(name, Uninstalling, NO_METADATA)]
    {
      jobs := jobs + [Remove(name, Uninstalling, NO_METADATA)];
    }

    method StepProbing(r: nat, reply: Reply)
      requires Valid() && r < |jobs| && jobs[r].Install? && jobs[r].installing == Probing
      modifies this
      ensures Now() == Performed(old(Now()), Continue(r, reply))
      ensures Valid() && |jobs| == |old(jobs)| && old(log) <= log && jobs == old(jobs)[r := jobs[r]]
      ensures Stepped(old(jobs)[r], reply, jobs[r])
      ensures var job := old(jobs)[r];
              if Accepted(job, reply) && job.form.NGTS? then
                && log == old(log) + [Saved(r, job.name, NgtsMetadata(job.form, reply.companyId))]
                && jobs[r] == Install(job.name, job.form, DeletingStale, NgtsMetadata(job.form, reply.companyId))
              else
                && log == old(log)
                && (Accepted(job, reply) ==> jobs[r] == Install(job.name, job.form, FetchingTenant, CcmMetadata(job.form, reply.base)))
    {
      hide Trim, Replay, LogOk, Found;
      ReplayNone(metadata);
      var job := jobs[r];
      if job.form.NGTS? && reply.Environment? && Trim(reply.id) != "" {
        var m := NgtsMetadata(job.form, reply.companyId);
        NgtsMetadataOk(job.form, reply.companyId);
        ReplayOne(metadata, Saved(r, job.name, m));
        SaveContainerMetadata(r, job.name, m);
        Move(r, Install(job.name, job.form, DeletingStale, m));
      } else if job.form.CCM? && reply.Region? && Trim(reply.base) != "" {
        var m := CcmMetadata(job.form, reply.base);
        TrimMeaning(job.form.apiKey);
        Move(r, Install(job.name, job.form, FetchingTenant, m));
      } else {
        Move(r, Done(false));
      }
    }

    /** Failing to find out about the tenant is no failure. */
    method StepTenant(r: nat, reply: Reply)
      requires Valid() && r < |jobs| && jobs[r].Install? && jobs[r].installing == FetchingTenant
      modifies this
      ensures Now() == Performed(old(Now()), Continue(r, reply))
      ensures Valid() && |jobs| == |old(jobs)| && old(log) <= log && jobs == old(jobs)[r := jobs[r]]
      ensures Stepped(old(jobs)[r], reply, jobs[r])
      ensures var job := old(jobs)[r];
              var m := if reply.TenantInfo?
                       then job.metadata.(tenantUrl := reply.tenantUrl, companyId := reply.companyId, organizationId := reply.organizationId)
                       else job.metadata;
              && log == (if SaysTenant(m) then old(log) + [Saved(r, job.name, m)] else old(log))
              && jobs[r] == Install(job.name, job.form, DeletingStale, m)
    {
      hide Trim, Replay, LogOk, Found;
      ReplayNone(metadata);
      var job := jobs[r];
      var m := job.metadata;
      if reply.TenantInfo? {
        m := m.(tenantUrl := reply.tenantUrl, companyId := reply.companyId, organizationId := reply.organizationId);
      }
      ReplayOne(metadata, Saved(r, job.name, m));
      SaveContainerMetadata(r, job.name, m);
      Move(r, Install(job.name, job.form, DeletingStale, m));
    }

    method StepPairing(r: nat, reply: Reply)
      requires Valid() && r < |jobs| && jobs[r].Install? && jobs[r].installing == CreatingPairing
      modifies this
      ensures Now() == Performed(old(Now()), Continue(r, reply))
      ensures Valid() && |jobs| == |old(jobs)| && old(log) <= log && jobs == old(jobs)[r := jobs[r]]
      ensures Stepped(old(jobs)[r], reply, jobs[r])
      ensures var job := old(jobs)[r];
              if !Accepted(job, reply) then log == old(log)
              else
                var m := job.metadata.(pairingCodeId := reply.id);
                && log == (if SaysTenant(m) then old(log) + [Saved(r, job.name, m)] else old(log))
                && jobs[r] == Install(job.name, job.form, EnsuringTool, m)
    {
      hide Trim, Replay, LogOk, Found;
      ReplayNone(metadata);
      var job := jobs[r];
      if reply.Pairing? && reply.code != "" && reply.id != "" {
        var m := job.metadata.(pairingCodeId := reply.id);
        ReplayOne(metadata, Saved(r, job.name, m));
        SaveContainerMetadata(r, job.name, m);
        Move(r, Install(job.name, job.form, EnsuringTool, m));
      } else {
        Move(r, Done(false));
      }
    }

    method StepRenaming(r: nat, reply: Reply)
      requires Valid() && r < |jobs| && jobs[r].Install? && jobs[r].installing == Renaming
      modifies this
      ensures Now() == Performed(old(Now()), Continue(r, reply))
      ensures Valid() && |jobs| == |old(jobs)| && old(log) <= log && jobs == old(jobs)[r := jobs[r]]
      ensures Stepped(old(jobs)[r], reply, jobs[r])
      ensures var job := old(jobs)[r];
              if !Accepted(job, reply) then log == old(log)
              else
                var m := job.metadata.(edgeInstanceId := reply.edgeInstanceId);
                log == if SaysTenant(m) then old(log) + [Saved(r, job.name, m)] else old(log)
    {
      hide Trim, Replay, LogOk, Found;
      ReplayNone(metadata);
      var job := jobs[r];
      if reply.Renamed? {
        ReplayOne(metadata, Saved(r, job.name, job.metadata.(edgeInstanceId := reply.edgeInstanceId)));
        SaveContainerMetadata(r, job.name, job.metadata.(edgeInstanceId := reply.edgeInstanceId));
        Move(r, Done(true));
      } else {
        Move(r, Done(false));
      }
    }

    method StepInstall(r: nat, reply: Reply)
      requires Valid() && r < |jobs| && jobs[r].Install?
      modifies this
      ensures Now() == Performed(old(Now()), Continue(r, reply))
      ensures Valid() && |jobs| == |old(jobs)| && old(log) <= log && jobs == old(jobs)[r := jobs[r]]
      ensures Stepped(old(jobs)[r], reply, jobs[r])
      ensures var job := old(jobs)[r];
              CallsOut(job.installing) ==>
                log == old(log) && metadata == old(metadata) && jobs[r] == if reply.Worked? then job.(installing := CalledOut(job.installing)) else Done(false)
    {
      hide Trim, Replay, LogOk, Found;
      ReplayNone(metadata);
      var job := jobs[r];
      match job.installing {
        case Probing => StepProbing(r, reply);
        case FetchingTenant => StepTenant(r, reply);
        case CreatingPairing => StepPairing(r, reply);
        case Renaming => StepRenaming(r, reply);
        case DeletingStale => Move(r, if reply.Worked? then job.(installing := CreatingPairing) else Done(false));
        case EnsuringTool => Move(r, if reply.Worked? then job.(installing := Installing) else Done(false));
        case Installing => Move(r, if reply.Worked? then job.(installing := Polling) else Done(false));
        case Polling => Move(r, if reply.Worked? then job.(installing := Renaming) else Done(false));
      }
    }

    method Advance(r: nat, e: Event, job: Job)
      requires Valid() && r < |jobs| && !e.Saved? && !e.Dropped? && EventOk(stored, log + [e], |log|) && JobOk(job, r, log + [e])
      modifies this`jobs, this`log
      ensures Valid() && jobs == old(jobs)[r := job] && log == old(log) + [e]
    {
      assert (log + [e])[..|log|] == log;
      Record(e);
      Move(r, job);
    }

    /** Deletes the registration, with the metadata that were read before. */
    method StepDeleting(r: nat, reply: Reply)
      requires Valid() && r < |jobs| && jobs[r].Remove? && jobs[r].removing == DeletingInstance
      modifies this
      ensures Now() == Performed(old(Now()), Continue(r, reply))
      ensures Valid() && |jobs| == |old(jobs)| && jobs == old(jobs)[r := jobs[r]] && Stepped(old(jobs)[r], reply, jobs[r])
      ensures metadata == old(metadata)
      ensures jobs[r] == if Accepted(old(jobs)[r], reply) then old(jobs)[r].(removing := RemovingContainer) else Done(false)
      ensures log == old(log) + if Accepted(old(jobs)[r], reply) then RemoveEvents(r, old(jobs)[r], Lookup(old(metadata), old(jobs)[r].name)) else []
    {
      hide Trim, Replay, LogOk, Found;
      ReplayNone(metadata);
      var job := jobs[r];
      var listing, works := if reply.Deleting? then reply.listing else Unavailable, reply.Deleting? && reply.works;
      var ok, _ := DeleteTenantEdgeInstance(job.metadata, job.name, listing, works);
      if ok {
        assert (log + [InstanceDeleted(r, job.name)])[..|log|] == log;
        ReplayOne(metadata, InstanceDeleted(r, job.name));
        Advance(r, InstanceDeleted(r, job.name), job.(removing := RemovingContainer));
      } else {
        Move(r, Done(false));
      }
    }

    method StepRemove(r: nat, reply: Reply)
      requires Valid() && r < |jobs| && jobs[r].Remove?
      modifies this
      ensures Now() == Performed(old(Now()), Continue(r, reply))
      ensures Valid() && |jobs| == |old(jobs)| && old(log) <= log && jobs == old(jobs)[r := jobs[r]]
      ensures jobs[r] == if Accepted(old(jobs)[r], reply) then RemoveNext(old(jobs)[r], Lookup(old(metadata), old(jobs)[r].name)) else Done(false)
      ensures metadata == if old(jobs)[r].removing == DroppingMetadata then old(metadata) - {old(jobs)[r].name} else old(metadata)
      ensures Stepped(old(jobs)[r], reply, jobs[r])
      ensures log == old(log) + if Accepted(old(jobs)[r], reply) then RemoveEvents(r, old(jobs)[r], Lookup(old(metadata), old(jobs)[r].name)) else []
    {
      hide Trim, Replay, LogOk, Found;
      ReplayNone(metadata);
      var job := jobs[r];
      var name := job.name;
      match job.removing {
        case Uninstalling =>
          if reply.Worked? {
            ReplayOne(metadata, Uninstalled(r, name));
            Advance(r, Uninstalled(r, name), job.(removing := ReadingMetadata));
          } else {
            Move(r, Done(false));
          }
        case ReadingMetadata =>
          ReplayOne(metadata, Event.Read(r, name, Lookup(metadata, name)));
          Advance(r, Event.Read(r, name, Lookup(metadata, name)),
                  Remove(name, DeletingInstance, if name in metadata then metadata[name] else NO_METADATA));
        case DeletingInstance => StepDeleting(r, reply);
        case RemovingContainer =>
          if reply.Worked? {
            assert (log + [ContainerDeleted(r, name)])[..|log|] == log;
            ReplayOne(metadata, ContainerDeleted(r, name));
            Advance(r, ContainerDeleted(r, name), job.(removing := DroppingMetadata));
          } else {
            Move(r, Done(false));
          }
        case DroppingMetadata =>
          ReplayOne(metadata, Dropped(r, name));
          RemoveContainerMetadata(r, name);
          Move(r, Done(true));
      }
    }

    method Step(r: nat, reply: Reply)
      requires Valid() && r < |jobs|
      modifies this
      ensures Now() == Performed(old(Now()), Continue(r, reply))
      ensures Valid() && |jobs| == |old(jobs)| && old(log) <= log && jobs == old(jobs)[r := jobs[r]]
      ensures !old(jobs)[r].Done? ==> Stepped(old(jobs)[r], reply, jobs[r])
    {
      ReplayNone(metadata);
      match jobs[r] {
        case Install(_, _, _, _) => StepInstall(r, reply);
        case Remove(_, _, _) => StepRemove(r, reply);
        case Done(_) =>
      }
    }

    /** Any interleaving of any number of requests. */
    method Run(actions: seq<Action>)
      requires Valid()
      modifies this
      ensures Valid() && old(log) <= log
      ensures Now() == PerformedAll(old(Now()), actions)
    {
      hide Performed;
      ghost var w := Now();
      for k := 0 to |actions|
        invariant Valid() && old(log) <= log
        invariant Now() == PerformedAll(w, actions[..k])
      {
        assert actions[..k + 1][..k] == actions[..k];
        Perform(actions[k]);
      }
      assert actions[..|actions|] == actions;
    }

    method Perform(a: Action)
      requires Valid()
      modifies this
      ensures Valid() && old(log) <= log
      ensures Now() == Performed(old(Now()), a)
    {
      hide Events, NextJob;
      match a {
        case BeginInstall(name, form) => StartInstall(name, form);
        case BeginRemove(name) => StartRemove(name);
        case Continue(r, reply) =>
          if r < |jobs| {
            Step(r, reply);
          }
      }
    }

    /** What was saved for a container stays, enough to delete its registration, until something else is saved or dropped for it. */
    lemma CredentialsStay(r: nat, i: nat)
      requires Valid() && i < |log| && log[i].Saved?
      requires forall j :: i < j < |log| ==> !Concerns(log[j], log[i].name)
      ensures log[i].name in metadata && metadata[log[i].name] == log[i].metadata && CanDelete(log[i].metadata)
    {
      SavedStays(stored, log, i);
      assert EventOk(stored, log, i);
    }

    /** Once an installation has its pairing code, its credentials and pairing id have been saved if and only if something is known about the tenant. */
    lemma PairedIsSaved(r: nat)
      requires Valid() && r < |jobs| && jobs[r].Install? && Paired(jobs[r].installing)
      ensures jobs[r].metadata.pairingCodeId != "" && CanDelete(jobs[r].metadata)
      ensures (exists i :: 0 <= i < |log| && log[i] == Saved(r, jobs[r].name, jobs[r].metadata)) <==> SaysTenant(jobs[r].metadata)
    {
      hide Trim, Replay;
      assert JobOk(jobs[r], r, log);
      if i :| 0 <= i < |log| && log[i] == Saved(r, jobs[r].name, jobs[r].metadata) {
        assert EventOk(stored, log, i);
      }
    }

    /** With NGTS something always is. */
    lemma NgtsIsSaved(r: nat)
      requires Valid() && r < |jobs| && jobs[r].Install? && jobs[r].form.NGTS? && Paired(jobs[r].installing)
      ensures jobs[r].metadata.backend == BACKEND_NGTS
      ensures exists i :: 0 <= i < |log| && log[i] == Saved(r, jobs[r].name, jobs[r].metadata)
    {
      hide Trim, Replay;
      assert JobOk(jobs[r], r, log);
      PairedIsSaved(r);
    }

    /** What a removal drops is what it read, and deleted the registration with, if and only if nothing else was saved since. */
    lemma DropsWhatItRead(i: nat)
      requires Valid() && i < |log| && log[i].Dropped?
      ensures exists j, found ::
                && 0 <= j < i && log[j] == Event.Read(log[i].r, log[i].name, found)
                && (Lookup(Replay(stored, log[..i]), log[i].name) == found <==> !ReplacedBetween(log, j, i, log[i].name, found))
    {
      hide Trim, Replay, ReplacedBetween;
      assert EventOk(stored, log, i);
      var c :| 0 <= c < i && log[..i][c] == ContainerDeleted(log[i].r, log[i].name);
      assert EventOk(stored, log, c);
      var d :| 0 <= d < c && log[..c][d] == InstanceDeleted(log[i].r, log[i].name);
      assert EventOk(stored, log, d);
      var found :| Event.Read(log[i].r, log[i].name, found) in log[..d];
      var j :| 0 <= j < d && log[..d][j] == Event.Read(log[i].r, log[i].name, found);
      assert EventOk(stored, log, j);
      DroppedAsRead(stored, log, j, i);
      assert log[j] == Event.Read(log[i].r, log[i].name, found);
    }

    lemma StoredWhileEmpty()
      requires Valid() && log == []
      ensures metadata == stored
    {
    }

    /** A container is deleted only after, in the same request, it was uninstalled and its registration deleted. */
    lemma DeletedLast(i: nat)
      requires Valid() && i < |log| && log[i].ContainerDeleted?
      ensures exists j, k :: 0 <= j < k < i && log[j] == Uninstalled(log[i].r, log[i].name) && log[k] == InstanceDeleted(log[i].r, log[i].name)
    {
      assert EventOk(stored, log, i);
      var k :| 0 <= k < i && log[..i][k] == InstanceDeleted(log[i].r, log[i].name);
      assert EventOk(stored, log, k);
      var j :| 0 <= j < k && log[..k][j] == Uninstalled(log[i].r, log[i].name);
      assert log[j] == Uninstalled(log[i].r, log[i].name) && log[k] == InstanceDeleted(log[i].r, log[i].name);
    }

    /** Metadata go only with their container. */
    lemma DroppedLast(i: nat)
      requires Valid() && i < |log| && log[i].Dropped?
      ensures exists j :: 0 <= j < i && log[j] == ContainerDeleted(log[i].r, log[i].name)
    {
      assert EventOk(stored, log, i);
      var j :| 0 <= j < i && log[..i][j] == ContainerDeleted(log[i].r, log[i].name);
      assert log[j] == ContainerDeleted(log[i].r, log[i].name);
    }
  }

  /** The failing input for CCM: the tenant does not answer, and a paired installation has saved nothing. */
  method PairedUnsaved(name: string, form: Form, base: string) returns (s: Server)
    requires form.CCM? && Complete(form) && Trim(base) != ""
    ensures fresh(s) && s.Valid() && s.log == [] && s.metadata == map[]
    ensures |s.jobs| == 1 && s.jobs[0].Install? && Paired(s.jobs[0].installing) && !SaysTenant(s.jobs[0].metadata)
  {
    hide Trim, Server.Valid, Performed;
    s := new Server(map[]);
    s.StartInstall(name, form);
    s.StepProbing(0, Region(base));
    s.StepTenant(0, Failed);
    s.StepInstall(0, Worked);
    s.StepPairing(0, Pairing("c", "i"));
    s.StoredWhileEmpty();
  }

  /** An installation that has saved its credentials, and a removal that has read them. */
  method RemovalUnderWay(name: string, form: Form, environment: string) returns (s: Server)
    requires form.NGTS? && Complete(form) && Trim(environment) != ""
    ensures fresh(s) && s.Valid() && |s.jobs| == 2
    ensures s.jobs[0] == Install(name, form, CreatingPairing, NgtsMetadata(form, "c"))
    ensures s.jobs[1] == Remove(name, DeletingInstance, NgtsMetadata(form, "c"))
  {
    hide Trim, Server.Valid, Stepped, Rank, Performed, DeletionWorks, Replay, NgtsMetadata;
    s := new Server(map[]);
    s.StartInstall(name, form);
    s.StartRemove(name);
    s.StepProbing(0, Environment(environment, "c"));
    s.CredentialsStay(0, 0);
    s.StepInstall(0, Worked);
    s.StepRemove(1, Worked);
    s.StepRemove(1, Worked);
  }

  /**
    A removal that reads the metadata before an installation saves its pairing id drops that id
    unread.  Unless the installation ends well, nothing is left to delete its registration with.
    */
  method PairingDropped(name: string, form: Form, environment: string) returns (s: Server)
    requires form.NGTS? && Complete(form) && Trim(environment) != ""
    ensures fresh(s) && s.Valid() && name !in s.metadata
    ensures |s.jobs| == 2 && s.jobs[1] == Done(true)
    ensures s.jobs[0].Install? && s.jobs[0].name == name && Paired(s.jobs[0].installing) && s.jobs[0].metadata.pairingCodeId == "i"
  {
    hide Trim, Server.Valid, Stepped, Rank, Performed, DeletionWorks, Replay;
    s := RemovalUnderWay(name, form, environment);
    s.StepPairing(0, Pairing("c", "i"));
    NothingListed(s.jobs[1].metadata, name);
    s.StepRemove(1, Deleting(Instances([]), false));
    s.StepRemove(1, Worked);
    s.StepRemove(1, Worked);
  }

  lemma NothingListed(m: ContainerMetadata, name: string)
    requires m.edgeInstanceId == ""
    ensures DeletionWorks(m, name, Instances([]), false)
  {
    assert Trim("") == "";
  }
}
