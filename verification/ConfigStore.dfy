/**
  The encrypted configuration: two files, each written to a temporary file and renamed.

  Every call to the operating system may fail, and the machine may stop after any of them.  The
  cipher is kept symbolic: a sealed blob opens under its own key and under no other.
  */
module ConfigStore {
  import opened Common
  import opened Text

  datatype ContainerMetadata = ContainerMetadata(backend: string, tenantUrl: string, companyId: string, organizationId: string,
                                                 apiBaseUrl: string, apiKey: string, clientId: string, clientSecret: string,
                                                 tsgId: string, edgeInstanceId: string, pairingCodeId: string)

  datatype Settings = Settings(passwordHash: string, sessionSecret: seq<nat>, instancePrefix: string, maxContainers: int,
                               containerMetadata: map<string, ContainerMetadata>)

  const DEFAULT_MAX_CONTAINERS := 4
  const DEFAULT_INSTANCE_PREFIX := "vsat"

  predicate IsBlank(s: string) {
    Trim(s) == ""
  }

  function Defaulted(s: Settings): Settings {
    s.(instancePrefix := if IsBlank(s.instancePrefix) then DEFAULT_INSTANCE_PREFIX else s.instancePrefix,
       maxContainers := if s.maxContainers <= 0 then DEFAULT_MAX_CONTAINERS else s.maxContainers)
  }

  /** The defaults make a usable configuration, keep a usable one as it is, and change nothing else. */
  lemma DefaultsSettle(s: Settings)
    ensures var d := Defaulted(s);
            && !IsBlank(d.instancePrefix) && d.maxContainers > 0 && Defaulted(d) == d
            && d.instancePrefix == (if IsBlank(s.instancePrefix) then "vsat" else s.instancePrefix)
            && d.maxContainers == (if s.maxContainers <= 0 then 4 else s.maxContainers)
            && (d == s <==> !IsBlank(s.instancePrefix) && s.maxContainers > 0)
            && d.passwordHash == s.passwordHash && d.sessionSecret == s.sessionSecret && d.containerMetadata == s.containerMetadata
  {
    TrimMeaning(DEFAULT_INSTANCE_PREFIX);
    assert DEFAULT_INSTANCE_PREFIX[0] == 'v' && !IsSpace('v');
  }

  class Config {
    var settings: Settings

    constructor (settings: Settings)
      ensures this.settings == settings
    {
      this.settings := settings;
    }

    method ApplyDefaults()
      modifies this
      ensures settings == Defaulted(old(settings))
    {
      if IsBlank(settings.instancePrefix) {
        settings := settings.(instancePrefix := DEFAULT_INSTANCE_PREFIX);
      }
      if settings.maxContainers <= 0 {
        settings := settings.(maxContainers := DEFAULT_MAX_CONTAINERS);
      }
    }
  }

  // ---------------------------------------------------------------- the disk

  type Key = seq<nat>

  datatype Name = ConfigFile | KeyFile | Temp(n: nat)

  /** `Sealed` is a nonce and the configuration encrypted under `key`; anything else is `Raw`. */
  datatype File = Raw(bytes: seq<nat>) | Sealed(key: Key, nonce: nat, settings: Settings)

  type Disk = map<Name, File>

  /** Opening authenticates: only the key that sealed opens. */
  function Decrypt(key: Key, blob: File): Option<Settings> {
    if blob.Sealed? && blob.key == key then Some(blob.settings) else None
  }

  function KeyIn(file: File): Option<Key> {
    if file.Raw? && |file.bytes| == 32 then Some(file.bytes) else None
  }

  /** The two files that matter. */
  datatype Files = Files(config: Option<File>, key: Option<File>)

  function Seen(d: Disk): Files {
    Files(if ConfigFile in d then Some(d[ConfigFile]) else None, if KeyFile in d then Some(d[KeyFile]) else None)
  }

  function With(f: Files, path: Name, data: File): Files {
    match path
    case ConfigFile => f.(config := Some(data))
    case KeyFile => f.(key := Some(data))
    case Temp(_) => f
  }

  /** The key in the key file, if there is one and it is a key. */
  function KeyOf(f: Files): Option<Key> {
    if f.key.Some? then KeyIn(f.key.value) else None
  }

  /** What `Load` makes of the files when nothing fails: nothing there, unreadable, or a configuration. */
  datatype Reading = Absent | Unreadable | Present(settings: Settings)

  function Read(f: Files): Reading {
    if f.config.None? then Absent
    else if KeyOf(f).None? then Unreadable
    else
      match Decrypt(KeyOf(f).value, f.config.value)
      case None => Unreadable
      case Some(s) => Present(Defaulted(s))
  }

  /** What a call to the operating system does; a read or a look-up of a missing file fails in any case. */
  datatype CallOutcome = Works | Fails

  function At(plan: seq<CallOutcome>, k: nat): CallOutcome {
    if k < |plan| then plan[k] else Works
  }

  datatype Error = NilConfig | NotConfigured | ReadFailed | ReadKey(missing: bool) | KeyLength | DecryptFailed | Mkdir | GenerateKey
    | WriteKey | EncryptFailed | WriteConfig

  datatype Result<T> = Ok(value: T) | Err(error: Error)

  ghost predicate AllWork(plan: seq<CallOutcome>, from: nat, n: nat) {
    forall k :: from <= k < from + n ==> At(plan, k) == Works
  }

  /** `q` is what is left of `p` after `n` calls. */
  ghost predicate Later(p: seq<CallOutcome>, q: seq<CallOutcome>, n: nat) {
    forall k: nat :: At(q, k) == At(p, k + n)
  }

  /** `q` is the end of `p`. */
  ghost predicate EndOf(p: seq<CallOutcome>, q: seq<CallOutcome>) {
    |q| <= |p| && q == p[|p| - |q|..]
  }

  lemma EndOfEnd(p: seq<CallOutcome>, q: seq<CallOutcome>, r: seq<CallOutcome>)
    requires EndOf(p, q) && EndOf(q, r)
    ensures EndOf(p, r)
  {
  }

  lemma EndOfSelf(p: seq<CallOutcome>)
    ensures EndOf(p, p)
  {
  }

  lemma EndAt(p: seq<CallOutcome>, q: seq<CallOutcome>, k: nat)
    requires EndOf(p, q)
    ensures At(q, k) == At(p, |p| - |q| + k)
  {
  }

  lemma LaterAt(p: seq<CallOutcome>, q: seq<CallOutcome>, n: nat, k: nat)
    requires Later(p, q, n)
    ensures At(q, k) == At(p, k + n)
  {
  }

  lemma LaterLater(p: seq<CallOutcome>, q: seq<CallOutcome>, r: seq<CallOutcome>, m: nat, n: nat)
    requires Later(p, q, m) && Later(q, r, n)
    ensures Later(p, r, m + n)
  {
    forall k: nat ensures At(r, k) == At(p, k + (m + n)) {
      assert At(r, k) == At(q, k + n) == At(p, k + n + m);
    }
  }

  lemma AllWorkLater(p: seq<CallOutcome>, q: seq<CallOutcome>, skipped: nat, from: nat, n: nat)
    requires Later(p, q, skipped)
    ensures AllWork(q, from, n) <==> AllWork(p, from + skipped, n)
  {
    if AllWork(p, from + skipped, n) {
      forall k | from <= k < from + n ensures At(q, k) == Works {
        assert At(p, k + skipped) == Works;
      }
    }
    if AllWork(q, from, n) {
      forall k | from + skipped <= k < from + skipped + n ensures At(p, k) == Works {
        assert At(q, k - skipped) == Works;
      }
    }
  }

  lemma FourCalls(q: seq<CallOutcome>)
    ensures AllWork(q, 0, 4) <==> AllWork(q, 0, 3) && At(q, 3) == Works
  {
  }

  lemma AllWorkFirst(p: seq<CallOutcome>, from: nat, n: nat)
    requires n > 0
    ensures AllWork(p, from, n) <==> At(p, from) == Works && AllWork(p, from + 1, n - 1)
  {
  }

  /**
    Whether `LoadOrCreateKey` writes a key: there was none; or what is there could not be read as
    a key and looking the file up failed as well.
    */
  ghost predicate CreatesKey(f: Files, plan: seq<CallOutcome>) {
    if f.key.None? then AllWork(plan, 1, 6)
    else At(plan, 1) == Fails && (At(plan, 0) == Fails || KeyOf(f).None?) && AllWork(plan, 2, 6)
  }

  /** A `Save` replaces a good key: reading it fails, looking it up fails, and everything else works. */
  ghost predicate LosesKey(f: Files, plan: seq<CallOutcome>) {
    KeyOf(f).Some? && At(plan, 0) == Works && At(plan, 1) == Fails && At(plan, 2) == Fails && AllWork(plan, 3, 6)
  }

  /** `Save` finds a key: behind the directory comes the reading of the key file. */
  ghost predicate FindsKey(f: Files, plan: seq<CallOutcome>) {
    KeyOf(f).Some? && At(plan, 1) == Works
  }

  /** `Save` gets a key: it finds one, or it makes one, which takes the random source and the five calls of a write. */
  ghost predicate GetsKey(f: Files, plan: seq<CallOutcome>) {
    && At(plan, 0) == Works
    && (FindsKey(f, plan) || if f.key.None? then AllWork(plan, 2, 6) else At(plan, 2) == Fails && AllWork(plan, 3, 6))
  }

  /** How many calls it takes to get the key; the removal of the temporary file is one that may fail. */
  ghost function KeyCalls(f: Files, plan: seq<CallOutcome>): nat {
    if FindsKey(f, plan) then 2 else if f.key.None? then 9 else 10
  }

  /** All the calls of a `Save` that have to work do: those for the key, the nonce, and the five of the write. */
  ghost predicate Saves(f: Files, plan: seq<CallOutcome>) {
    GetsKey(f, plan) && AllWork(plan, KeyCalls(f, plan), 6)
  }

  ghost predicate NothingFails(plan: seq<CallOutcome>) {
    forall k: nat :: At(plan, k) == Works
  }

  /** When nothing fails a configuration is saved, unless what stands in the key file is no key. */
  lemma SavesWhenNothingFails(f: Files, plan: seq<CallOutcome>)
    requires NothingFails(plan)
    ensures Saves(f, plan) <==> f.key.None? || KeyOf(f).Some?
  {
    assert At(plan, 1) == Works && At(plan, 2) == Works;
  }

  lemma NothingFailsLater(p: seq<CallOutcome>, q: seq<CallOutcome>)
    requires NothingFails(p) && EndOf(p, q)
    ensures NothingFails(q)
  {
    forall k: nat ensures At(q, k) == Works {
      EndAt(p, q, k);
    }
  }

  lemma NothingLost(f: Files, plan: seq<CallOutcome>)
    requires NothingFails(plan)
    ensures !LosesKey(f, plan)
  {
    assert At(plan, 1) == Works;
  }

  /** How many calls reading or making a key takes. */
  ghost function LoadCalls(f: Files, plan: seq<CallOutcome>): nat {
    if KeyOf(f).Some? && At(plan, 0) == Works then 1 else if f.key.None? then 8 else 9
  }

  lemma GetsKeyLater(f: Files, p: seq<CallOutcome>, q: seq<CallOutcome>)
    requires At(p, 0) == Works && Later(p, q, 1)
    ensures GetsKey(f, p) <==> (KeyOf(f).Some? && At(q, 0) == Works) || CreatesKey(f, q)
    ensures KeyCalls(f, p) == 1 + LoadCalls(f, q)
  {
    AllWorkLater(p, q, 1, 1, 6);
    AllWorkLater(p, q, 1, 2, 6);
  }

  /** The calls that lose a good key, from the `k`th on. */
  ghost predicate LosesAt(plan: seq<CallOutcome>, k: nat) {
    At(plan, k) == Works && At(plan, k + 1) == Fails && At(plan, k + 2) == Fails && AllWork(plan, k + 3, 6)
  }

  lemma LosesKeyAt(f: Files, p: seq<CallOutcome>, q: seq<CallOutcome>)
    requires EndOf(p, q) && LosesKey(f, q)
    ensures |q| <= |p| && LosesAt(p, |p| - |q|)
  {
    forall k: nat ensures At(q, k) == At(p, |p| - |q| + k) {
      EndAt(p, q, k);
    }
    AllWorkLater(p, q, |p| - |q|, 3, 6);
  }

  /** The failing input: the directory is there, but the key can be neither read nor looked up. */
  lemma KeyTakenForMissing(key: Key, config: File)
    requires |key| == 32
    ensures LosesKey(Files(Some(config), Some(Raw(key))), [Works, Fails, Fails])
  {
  }

  lemma LosesKeyLater(f: Files, p: seq<CallOutcome>, q: seq<CallOutcome>)
    requires KeyOf(f).Some? && At(p, 0) == Works && Later(p, q, 1)
    ensures CreatesKey(f, q) <==> LosesKey(f, p)
  {
    AllWorkLater(p, q, 1, 2, 6);
  }

  /** The `k`th call is the first one that fails. */
  ghost predicate FailsFirst(plan: seq<CallOutcome>, k: nat) {
    AllWork(plan, 0, k) && At(plan, k) == Fails
  }

  /** A write leaves its temporary file: a call behind its creation fails, and so does the next one, which is the removal. */
  ghost predicate LeavesTemp(plan: seq<CallOutcome>) {
    exists k :: 1 <= k <= 4 && FailsFirst(plan, k) && At(plan, k + 1) == Fails
  }

  lemma LeavesTempAt(plan: seq<CallOutcome>, k: nat)
    requires FailsFirst(plan, k)
    ensures LeavesTemp(plan) <==> 1 <= k <= 4 && At(plan, k + 1) == Fails
  {
    forall l: nat | FailsFirst(plan, l) ensures l == k {
      assert l < k ==> At(plan, l) == Works;
      assert k < l ==> At(plan, k) == Works;
    }
  }

  lemma AllWorkLeavesNothing(plan: seq<CallOutcome>)
    requires AllWork(plan, 0, 5)
    ensures !LeavesTemp(plan)
  {
  }

  lemma FailsFirstLater(p: seq<CallOutcome>, q: seq<CallOutcome>, k: nat)
    requires At(p, 0) == Works && Later(p, q, 1) && FailsFirst(q, k)
    ensures FailsFirst(p, k + 1)
  {
    AllWorkLater(p, q, 1, 0, k);
    LaterAt(p, q, 1, k);
    AllWorkFirst(p, 0, k + 1);
  }

  /** The temporary files are the same. */
  ghost predicate Tidy(before: Disk, after: Disk) {
    forall n: nat :: (Temp(n) in after <==> Temp(n) in before) && (Temp(n) in before ==> after[Temp(n)] == before[Temp(n)])
  }

  /** There is one more. */
  ghost predicate OneMore(before: Disk, after: Disk, n: nat) {
    && Temp(n) !in before && Temp(n) in after
    && forall m: nat :: m != n ==> (Temp(m) in after <==> Temp(m) in before) && (Temp(m) in before ==> after[Temp(m)] == before[Temp(m)])
  }

  lemma TidyTidy(a: Disk, b: Disk, c: Disk)
    requires Tidy(a, b) && Tidy(b, c)
    ensures Tidy(a, c)
  {
  }

  lemma TidyNow(d: Disk)
    ensures Tidy(d, d)
  {
  }

  lemma TidyAfter(p: seq<CallOutcome>, q: seq<CallOutcome>)
    requires EndOf(p, q)
    ensures NeverTwice(p) ==> NeverTwice(q) && !LeavesTemp(q)
  {
    if NeverTwice(p) {
      NeverTwiceLater(p, q);
    }
  }

  lemma OneMoreIsNotTidy(before: Disk, after: Disk, n: nat)
    requires OneMore(before, after, n)
    ensures !Tidy(before, after)
  {
  }

  lemma FailsAtOnce(plan: seq<CallOutcome>)
    requires At(plan, 0) == Fails
    ensures FailsFirst(plan, 0)
  {
  }

  lemma NeverTwiceLater(p: seq<CallOutcome>, q: seq<CallOutcome>)
    requires EndOf(p, q) && NeverTwice(p)
    ensures NeverTwice(q) && !LeavesTemp(q)
  {
    forall k: nat ensures At(q, k) == Works || At(q, k + 1) == Works {
      EndAt(p, q, k);
      EndAt(p, q, k + 1);
      var l := |p| - |q| + k;
      assert At(p, l) == Works || At(p, l + 1) == Works;
    }
  }

  ghost predicate Since(history: seq<Disk>, from: nat, a: Files, b: Files) {
    forall k :: from <= k < |history| ==> Seen(history[k]) == a || Seen(history[k]) == b
  }

  /** What went on before, and after. */
  lemma SinceJoined(early: seq<Disk>, late: seq<Disk>, from: nat, a: Files, b: Files, c: Files)
    requires early <= late && from <= |early|
    requires Since(early, from, a, b) && Since(late, |early|, b, c) && (b == a || b == c)
    ensures Since(late, from, a, c)
  {
    forall k | from <= k < |late| ensures Seen(late[k]) == a || Seen(late[k]) == c {
      if k < |early| {
        assert late[k] == early[k];
      }
    }
  }

  lemma SinceNow(history: seq<Disk>, a: Files)
    ensures Since(history, |history|, a, a)
  {
  }

  lemma NoKeyWithoutDirectory(f: Files, plan: seq<CallOutcome>)
    requires At(plan, 0) == Fails
    ensures !GetsKey(f, plan)
  {
  }

  lemma LosesNothing(f: Files, plan: seq<CallOutcome>)
    requires At(plan, 0) == Fails
    ensures !LosesKey(f, plan)
  {
  }

  /** The states of the disk over two steps, and the one between them. */
  lemma StatesJoined(h0: seq<Disk>, h1: seq<Disk>, h2: seq<Disk>, a: Files, b: Files, c: Files)
    requires h0 <= h1 <= h2 && Since(h1, |h0|, a, b) && ((h1 == h2 && b == c) || Since(h2, |h1|, b, c))
    requires |h1| > 0 && Seen(h1[|h1| - 1]) == b
    requires |h0| > 0 && Seen(h0[|h0| - 1]) == a
    ensures h0 <= h2 && forall k :: |h0| <= k < |h2| ==> Seen(h2[k]) in {a, b, c}
    ensures b != a ==> exists k :: |h0| <= k < |h2| && Seen(h2[k]) == b
  {
    hide Seen;
    forall k | |h0| <= k < |h2| ensures Seen(h2[k]) in {a, b, c} {
      if k < |h1| {
        assert h2[k] == h1[k];
      }
    }
    var last := |h1| - 1;
    assert Seen(h2[last]) == b;
  }

  // ---------------------------------------------------------------- runs

  /** The random source delivers neither the key that is there nor one key twice. */
  ghost predicate NewKeys(first: Option<Key>, randoms: seq<Key>) {
    && (forall i :: 0 <= i < |randoms| ==> first != Some(randoms[i]))
    && (forall i, j :: 0 <= i < j < |randoms| ==> randoms[i] != randoms[j])
  }

  ghost predicate KnownKey(now: Option<Key>, first: Option<Key>, randoms: seq<Key>, n: nat) {
    now == first || exists i :: 0 <= i < n && i < |randoms| && now == Some(randoms[i])
  }

  lemma NotYetKnown(now: Option<Key>, first: Option<Key>, randoms: seq<Key>, n: nat)
    requires NewKeys(first, randoms) && KnownKey(now, first, randoms, n) && n < |randoms|
    ensures now != Some(randoms[n])
  {
  }

  /** Two good keys have been there. */
  ghost predicate TwoKeys(history: seq<Disk>, from: nat) {
    exists k, l :: from <= k < |history| && from <= l < |history|
                   && KeyOf(Seen(history[k])).Some? && KeyOf(Seen(history[l])).Some? && KeyOf(Seen(history[k])) != KeyOf(Seen(history[l]))
  }

  ghost predicate OneKey(history: seq<Disk>, from: nat, last: Option<Key>) {
    forall k :: from <= k < |history| ==> KeyOf(Seen(history[k])) == None || KeyOf(Seen(history[k])) == last
  }

  lemma OneIsNotTwo(history: seq<Disk>, from: nat, last: Option<Key>)
    requires OneKey(history, from, last)
    ensures !TwoKeys(history, from)
  {
  }

  ghost predicate KeyStays(history: seq<Disk>, from: nat, key: Option<Key>) {
    key.Some? ==> forall k :: from <= k < |history| ==> KeyOf(Seen(history[k])) == key
  }

  ghost predicate ReadableSince(history: seq<Disk>, from: nat, first: Reading, wanted: seq<Reading>) {
    forall k :: from <= k < |history| ==> OneOf(Read(Seen(history[k])), first, wanted)
  }

  ghost predicate UnreadableSince(history: seq<Disk>, from: nat) {
    exists k :: from <= k < |history| && Read(Seen(history[k])) == Unreadable
  }

  ghost predicate NeverTwice(plan: seq<CallOutcome>) {
    forall k: nat :: At(plan, k) == Works || At(plan, k + 1) == Works
  }

  lemma NeverTwiceKeeps(plan: seq<CallOutcome>, k: nat)
    requires NeverTwice(plan)
    ensures !LosesAt(plan, k)
  {
    assert At(plan, k + 1) == Works || At(plan, k + 1 + 1) == Works;
  }

  /** What a run has shown so far: `lost` is told by the states of the disk and by the calls that failed. */
  ghost predicate RunSoFar(lost: bool, h0: seq<Disk>, history: seq<Disk>, p0: seq<CallOutcome>, wanted: seq<Reading>, randoms: seq<Key>, n: nat)
    requires |h0| > 0 && |history| > 0
  {
    var start, now := Seen(h0[|h0| - 1]), Seen(history[|history| - 1]);
    && h0 <= history && KnownKey(KeyOf(now), KeyOf(start), randoms, n)
    && (if lost then
          && (exists k: nat :: LosesAt(p0, k))
          && (NewKeys(KeyOf(start), randoms) ==> TwoKeys(history, |h0| - 1))
          && (NewKeys(KeyOf(start), randoms) && Read(start).Present? ==> UnreadableSince(history, |h0|))
        else
          && ReadableSince(history, |h0| - 1, Read(start), wanted) && OneKey(history, |h0| - 1, KeyOf(now))
          && KeyStays(history, |h0| - 1, KeyOf(start)))
  }

  /** What one save has shown: the readings and keys since, whether it lost a key. */
  ghost predicate SaveShown(losing: bool, h1: seq<Disk>, h2: seq<Disk>, w: Reading, random: Key)
    requires |h1| > 0 && |h2| > 0
  {
    var before, now := Seen(h1[|h1| - 1]), Seen(h2[|h2| - 1]);
    && h1 <= h2 && (KeyOf(now) == KeyOf(before) || KeyOf(now) == Some(random))
    && (forall k :: |h1| <= k < |h2| ==> KeyOf(Seen(h2[k])) == KeyOf(before) || KeyOf(Seen(h2[k])) == KeyOf(now))
    && (losing ==> KeyOf(before).Some? && KeyOf(now) == Some(random))
    && (Read(before) != Unreadable && !losing ==>
          forall k :: |h1| <= k < |h2| ==>
            (Read(Seen(h2[k])) == Read(before) || Read(Seen(h2[k])) == w) && (KeyOf(before).Some? ==> KeyOf(Seen(h2[k])) == KeyOf(before)))
    && (losing && Read(before).Present? && KeyOf(before) != Some(random) ==> UnreadableSince(h2, |h1|))
  }

  lemma KeptByOneMore(h0: seq<Disk>, h1: seq<Disk>, h2: seq<Disk>, p0: seq<CallOutcome>, wanted: seq<Reading>, randoms: seq<Key>, n: nat)
    requires |h0| > 0 && |h1| > 0 && |h2| > 0 && n < |randoms| == |wanted| && wanted[n].Present?
    requires RunSoFar(false, h0, h1, p0, wanted, randoms, n) && SaveShown(false, h1, h2, wanted[n], randoms[n])
    ensures RunSoFar(false, h0, h2, p0, wanted, randoms, n + 1)
  {
    hide Seen, KeyOf, Read;
    var from, start, before, now := |h0| - 1, Seen(h0[|h0| - 1]), Seen(h1[|h1| - 1]), Seen(h2[|h2| - 1]);
    assert h0 <= h1 <= h2;
    assert h0 <= h2;
    assert OneOf(Read(before), Read(start), wanted);
    forall k | from <= k < |h2|
      ensures OneOf(Read(Seen(h2[k])), Read(start), wanted)
      ensures KeyOf(Seen(h2[k])) == None || KeyOf(Seen(h2[k])) == KeyOf(now)
      ensures KeyOf(start).Some? ==> KeyOf(Seen(h2[k])) == KeyOf(start)
    {
      assert k < |h1| ==> h2[k] == h1[k];
      assert KeyOf(before).Some? && |h1| < |h2| ==> KeyOf(now) == KeyOf(before);
      assert |h1| == |h2| ==> h1 == h2;
    }
  }

  lemma LostByOneMore(h0: seq<Disk>, h1: seq<Disk>, h2: seq<Disk>, p0: seq<CallOutcome>, wanted: seq<Reading>, randoms: seq<Key>, n: nat, at: nat)
    requires |h0| > 0 && |h1| > 0 && |h2| > 0 && n < |randoms| == |wanted| && forall i :: 0 <= i < |wanted| ==> wanted[i].Present?
    requires RunSoFar(false, h0, h1, p0, wanted, randoms, n) && SaveShown(true, h1, h2, wanted[n], randoms[n]) && LosesAt(p0, at)
    ensures RunSoFar(true, h0, h2, p0, wanted, randoms, n + 1)
  {
    hide Seen, KeyOf, Read, LosesAt, NewKeys;
    var from, start, before, now := |h0| - 1, Seen(h0[|h0| - 1]), Seen(h1[|h1| - 1]), Seen(h2[|h2| - 1]);
    assert h0 <= h1 <= h2;
    assert h0 <= h2;
    if NewKeys(KeyOf(start), randoms) {
      NotYetKnown(KeyOf(before), KeyOf(start), randoms, n);
      var k, l := |h1| - 1, |h2| - 1;
      assert h2[k] == h1[k];
      assert KeyOf(Seen(h2[k])).Some? && KeyOf(Seen(h2[l])).Some? && KeyOf(Seen(h2[k])) != KeyOf(Seen(h2[l]));
      assert OneOf(Read(before), Read(start), wanted);
      if Read(start).Present? {
        var u :| |h1| <= u < |h2| && Read(Seen(h2[u])) == Unreadable;
        assert |h0| <= u;
      }
    }
  }

  lemma LostStays(losing: bool, h0: seq<Disk>, h1: seq<Disk>, h2: seq<Disk>, p0: seq<CallOutcome>, wanted: seq<Reading>, randoms: seq<Key>, n: nat)
    requires |h0| > 0 && |h1| > 0 && |h2| > 0 && n < |randoms| == |wanted|
    requires RunSoFar(true, h0, h1, p0, wanted, randoms, n) && SaveShown(losing, h1, h2, wanted[n], randoms[n])
    ensures RunSoFar(true, h0, h2, p0, wanted, randoms, n + 1)
  {
    hide Seen, KeyOf, Read, LosesAt, NewKeys;
    assert h0 <= h1 <= h2;
    assert h0 <= h2;
    var start := Seen(h0[|h0| - 1]);
    if NewKeys(KeyOf(start), randoms) {
      var k, l :| |h0| - 1 <= k < |h1| && |h0| - 1 <= l < |h1|
                  && KeyOf(Seen(h1[k])).Some? && KeyOf(Seen(h1[l])).Some? && KeyOf(Seen(h1[k])) != KeyOf(Seen(h1[l]));
      assert h2[k] == h1[k] && h2[l] == h1[l];
      if Read(start).Present? {
        var u :| |h0| <= u < |h1| && Read(Seen(h1[u])) == Unreadable;
        assert h2[u] == h1[u];
      }
    }
  }

  /** There is no key yet, or a good one. */
  predicate KeyUsable(f: Files) {
    f.key.None? || KeyOf(f).Some?
  }

  /** What the disk reads as after `n` saves. */
  function LastSaved(first: Reading, wanted: seq<Reading>, saved: seq<bool>, n: nat): Reading
    requires n <= |saved| <= |wanted|
  {
    if n == 0 then first
    else if saved[n - 1] then wanted[n - 1]
    else LastSaved(first, wanted, saved, n - 1)
  }

  lemma {:induction false} LastSavedPrefix(first: Reading, wanted: seq<Reading>, saved: seq<bool>, more: seq<bool>, n: nat)
    requires n <= |saved| && |saved + more| <= |wanted|
    ensures LastSaved(first, wanted, saved + more, n) == LastSaved(first, wanted, saved, n)
  {
    if n > 0 {
      LastSavedPrefix(first, wanted, saved, more, n - 1);
    }
  }

  /** What one save tells of the disk. */
  ghost predicate SaveTold(ok: bool, losing: bool, before: Files, now: Files, w: Reading) {
    && (ok ==> Read(now) == w)
    && (!ok && !losing && Read(before) != Unreadable ==> Read(now) == Read(before))
  }

  ghost predicate SoFarSaved(first: Reading, now: Reading, wanted: seq<Reading>, saved: seq<bool>) {
    |saved| <= |wanted| && now == LastSaved(first, wanted, saved, |saved|)
  }

  lemma NeverTwiceWhenNothingFails(plan: seq<CallOutcome>)
    ensures NothingFails(plan) ==> NeverTwice(plan)
  {
  }

  lemma ReadableSoFar(h0: seq<Disk>, history: seq<Disk>, p0: seq<CallOutcome>, wanted: seq<Reading>, randoms: seq<Key>, n: nat)
    requires |h0| > 0 && |history| > 0 && RunSoFar(false, h0, history, p0, wanted, randoms, n)
    ensures Read(Seen(history[|history| - 1])) != Unreadable
  {
    hide Seen, KeyOf, Read, OneKey;
    assert h0 <= history;
    assert OneOf(Read(Seen(history[|history| - 1])), Read(Seen(h0[|h0| - 1])), wanted);
  }

  lemma NextSaved(lost: bool, losing: bool, first: Reading, before: Files, now: Files, p0: seq<CallOutcome>, p: seq<CallOutcome>,
                  wanted: seq<Reading>, saved: seq<bool>, ok: bool)
    requires |saved| < |wanted| && wanted[|saved|].Present? && EndOf(p0, p) && ok == Saves(before, p)
    requires SaveTold(ok, losing, before, now, wanted[|saved|])
    requires !lost ==> Read(before) != Unreadable && SoFarSaved(first, Read(before), wanted, saved)
    ensures !lost && !losing ==> SoFarSaved(first, Read(now), wanted, saved + [ok])
    ensures NothingFails(p0) && KeyUsable(before) ==> ok && KeyUsable(now)
  {
    hide Seen, Saves, NothingFails;
    LastSavedPrefix(first, wanted, saved, [ok], |saved|);
    if NothingFails(p0) && KeyUsable(before) {
      NothingFailsLater(p0, p);
      SavesWhenNothingFails(before, p);
      PresentHasKey(now);
    }
  }

  lemma NothingSaved(first: Reading, wanted: seq<Reading>, saved: seq<bool>)
    requires saved == []
    ensures SoFarSaved(first, first, wanted, saved)
  {
  }

  lemma SavedAtLast(lost: bool, first: Reading, now: Reading, wanted: seq<Reading>, saved: seq<bool>)
    requires |saved| <= |wanted| && (!lost ==> SoFarSaved(first, now, wanted, saved))
    ensures !lost ==> now == LastSaved(first, wanted, saved, |saved|)
  {
  }

  lemma PresentHasKey(f: Files)
    ensures Read(f).Present? ==> KeyUsable(f)
  {
  }

  lemma RunStarts(h0: seq<Disk>, p0: seq<CallOutcome>, wanted: seq<Reading>, randoms: seq<Key>)
    requires |h0| > 0 && Read(Seen(h0[|h0| - 1])) != Unreadable
    ensures RunSoFar(false, h0, h0, p0, wanted, randoms, 0) && EndOf(p0, p0)
  {
    hide Seen, KeyOf, Read;
  }

  lemma LosesGoodKey(f: Files, plan: seq<CallOutcome>)
    ensures LosesKey(f, plan) ==> KeyOf(f).Some?
  {
  }

  /** What the run has shown, said of its states. */
  lemma RunEnds(lost: bool, h0: seq<Disk>, history: seq<Disk>, p0: seq<CallOutcome>, wanted: seq<Reading>, randoms: seq<Key>)
    requires |h0| > 0 && |history| > 0 && RunSoFar(lost, h0, history, p0, wanted, randoms, |randoms|)
    ensures var start := Seen(h0[|h0| - 1]);
            && h0 <= history
            && (!lost ==> forall k :: |h0| <= k < |history| ==> OneOf(Read(Seen(history[k])), Read(start), wanted))
            && (!lost && KeyOf(start).Some? ==> forall k :: |h0| <= k < |history| ==> KeyOf(Seen(history[k])) == KeyOf(start))
            && (NewKeys(KeyOf(start), randoms) ==> (lost <==> TwoKeys(history, |h0| - 1)))
            && (lost ==> exists k: nat :: LosesAt(p0, k))
            && (NeverTwice(p0) ==> !lost)
            && (lost && NewKeys(KeyOf(start), randoms) && Read(start).Present? ==>
                  exists k :: |h0| <= k < |history| && Read(Seen(history[k])) == Unreadable)
  {
    hide Seen, KeyOf, Read, LosesAt, NewKeys, NeverTwice, TwoKeys, OneKey;
    if lost {
      var k: nat :| LosesAt(p0, k);
      if NeverTwice(p0) {
        NeverTwiceKeeps(p0, k);
        assert false;
      }
    } else {
      OneIsNotTwo(history, |h0| - 1, KeyOf(Seen(history[|history| - 1])));
    }
  }

  class Store {
    var disk: Disk
    /** The outcomes of the calls to come. */
    var plan: seq<CallOutcome>
    /** Every state of the disk so far; the machine may have stopped at any of them. */
    ghost var history: seq<Disk>

    ghost predicate Valid()
      reads this
    {
      |history| > 0 && history[|history| - 1] == disk
    }

    constructor (disk: Disk, plan: seq<CallOutcome>)
      ensures Valid() && this.disk == disk && this.plan == plan && history == [disk]
    {
      this.disk, this.plan, history := disk, plan, [disk];
    }

    method Call() returns (o: CallOutcome)
      modifies this`plan
      ensures o == At(old(plan), 0) && Later(old(plan), plan, 1) && EndOf(old(plan), plan)
    {
      if |plan| == 0 {
        o := Works;
      } else {
        o := plan[0];
        plan := plan[1..];
      }
    }

    method Put(name: Name, file: File)
      modifies this`disk, this`history
      ensures disk == old(disk)[name := file] && history == old(history) + [disk] && Seen(disk) == With(Seen(old(disk)), name, file)
    {
      disk := disk[name := file];
      history := history + [disk];
    }

    method Drop(name: Name)
      modifies this`disk, this`history
      ensures disk == old(disk) - {name} && history == old(history) + [disk]
    {
      disk := disk - {name};
      history := history + [disk];
    }

    /** Writes, sets the mode and closes. */
    method FillTemp(n: nat, data: File, ghost before: Disk) returns (ok: bool, ghost k: nat)
      requires Valid() && OneMore(before, disk, n)
      modifies this
      ensures OneMore(before, disk, n)
      ensures !ok ==> k < 3 && FailsFirst(old(plan), k) && Later(old(plan), plan, k + 1)
      ensures Valid()
      ensures EndOf(old(plan), plan)
      ensures old(history) <= history && ok == AllWork(old(plan), 0, 3)
      ensures Seen(disk) == Seen(old(disk)) && Since(history, old(|history|), Seen(disk), Seen(disk))
      ensures ok ==> Temp(n) in disk && disk[Temp(n)] == data
      ensures ok ==> Later(old(plan), plan, 3)
    {
      ok, k := false, 0;
      var wrote := Call();
      if wrote == Fails {
        return;
      }
      Put(Temp(n), data);
      k := 1;
      var moded := Call();
      if moded == Fails {
        return;
      }
      k := 2;
      var closed := Call();
      ok := closed == Works;
    }

    /** The deferred removal, whose failure nobody looks at. */
    method Remove(n: nat, ghost before: Disk)
      requires Valid() && (OneMore(before, disk, n) || Tidy(before, disk)) && Temp(n) !in before
      modifies this
      ensures Valid()
      ensures EndOf(old(plan), plan)
      ensures old(history) <= history && Seen(disk) == Seen(old(disk)) && Since(history, old(|history|), Seen(disk), Seen(disk))
      ensures Later(old(plan), plan, 1)
      ensures Tidy(before, disk) <==> At(old(plan), 0) == Works || Tidy(before, old(disk))
    {
      var removed := Call();
      if removed == Works {
        Drop(Temp(n));
      }
    }

    /** Writes to a new temporary file and renames it; the file is replaced in one step or not at all. */
    method WriteFileAtomic(path: Name, data: File) returns (ok: bool)
      requires !path.Temp?
      requires Valid()
      modifies this
      ensures Valid()
      ensures EndOf(old(plan), plan)
      ensures old(history) <= history && ok == AllWork(old(plan), 0, 5) && (ok ==> Later(old(plan), plan, 6))
      ensures Tidy(old(disk), disk) <==> !LeavesTemp(old(plan))
      ensures Seen(disk) == if ok then With(Seen(old(disk)), path, data) else Seen(old(disk))
      ensures Since(history, old(|history|), Seen(old(disk)), Seen(disk))
    {
      ghost var p, start, h0 := plan, Seen(disk), history;
      assert Since(h0, |h0|, start, start);
      hide AllWork, Seen, Since, Later, EndOf, OneMore, Tidy, FailsFirst, LeavesTemp;
      AllWorkFirst(p, 0, 5);
      ghost var before := disk;
      TidyNow(before);
      ok := false;
      var created := Call();
      ghost var p1 := plan;
      if created == Fails {
        FailsAtOnce(p);
        LeavesTempAt(p, 0);
        return;
      }
      var n := FreshTemp();
      CreateTemp(n);
      ghost var h1 := history;
      AllWorkLater(p, plan, 1, 0, 4);
      ghost var k: nat;
      ok, k := FillAndRename(n, path, data, before);
      EndOfEnd(p, p1, plan);
      ghost var h2, p2 := history, plan;
      if ok {
        LaterLater(p, p1, p2, 1, 4);
        AllWorkLeavesNothing(p);
      } else {
        FailsFirstLater(p, p1, k);
        LeavesTempAt(p, k + 1);
        LaterLater(p, p1, p2, 1, k + 1);
        LaterAt(p, p2, k + 2, 0);
        OneMoreIsNotTidy(before, disk, n);
      }
      assert h0 <= h1 <= h2;
      assert h0 <= h2;
      SinceJoined(h1, h2, |h0|, start, start, Seen(disk));
      Remove(n, before);
      EndOfEnd(p, p2, plan);
      if ok {
        LaterLater(p, p2, plan, 5, 1);
      }
      assert h2 <= history;
      assert h0 <= history;
      SinceJoined(h2, history, |h0|, start, Seen(disk), Seen(disk));
    }

    method CreateTemp(n: nat)
      requires Valid()
      modifies this`disk, this`history
      ensures Valid() && old(history) <= history && Seen(disk) == Seen(old(disk))
      ensures Since(history, old(|history|), Seen(disk), Seen(disk))
      ensures Temp(n) !in old(disk) ==> OneMore(old(disk), disk, n)
    {
      Put(Temp(n), Raw([]));
    }

    method FillAndRename(n: nat, path: Name, data: File, ghost before: Disk) returns (ok: bool, ghost k: nat)
      requires Valid() && !path.Temp? && OneMore(before, disk, n)
      modifies this
      ensures Valid()
      ensures EndOf(old(plan), plan)
      ensures old(history) <= history && ok == AllWork(old(plan), 0, 4) && (ok ==> Later(old(plan), plan, 4))
      ensures if ok then Tidy(before, disk) else OneMore(before, disk, n)
      ensures !ok ==> k < 4 && FailsFirst(old(plan), k) && Later(old(plan), plan, k + 1)
      ensures Seen(disk) == if ok then With(Seen(old(disk)), path, data) else Seen(old(disk))
      ensures Since(history, old(|history|), Seen(old(disk)), Seen(disk))
    {
      hide AllWork, Seen, Later, OneMore, Tidy;
      ghost var p := plan;
      FourCalls(plan);
      var filled: bool;
      filled, k := FillTemp(n, data, before);
      ok := false;
      if filled {
        ghost var p3 := plan;
        LaterAt(p, p3, 3, 0);
        var renamed := Call();
        LaterLater(p, p3, plan, 3, 1);
        k := 3;
        if renamed == Works {
          Rename(n, path);
          ok := true;
        }
      }
    }

    method FreshTemp() returns (n: nat)
      ensures Temp(n) !in disk
    {
      var left := disk.Keys;
      n := 0;
      while Temp(n) in disk
        invariant left <= disk.Keys && forall k :: n <= k && Temp(k) in disk ==> Temp(k) in left
        decreases |left|
      {
        left := left - {Temp(n)};
        n := n + 1;
      }
    }

    method Rename(n: nat, path: Name)
      requires Temp(n) in disk && !path.Temp?
      modifies this`disk, this`history
      ensures history == old(history) + [disk] && Seen(disk) == With(Seen(old(disk)), path, old(disk)[Temp(n)])
      ensures forall before: Disk :: OneMore(before, old(disk), n) ==> Tidy(before, disk)
    {
      disk := (disk - {Temp(n)})[path := disk[Temp(n)]];
      history := history + [disk];
    }

    method LoadKey() returns (r: Result<Key>)
      modifies this`plan
      ensures Later(old(plan), plan, 1) && EndOf(old(plan), plan)
      ensures r == if KeyFile !in disk then Err(ReadKey(true))
                   else if At(old(plan), 0) == Fails then Err(ReadKey(false))
                   else if KeyOf(Seen(disk)).Some? then Ok(KeyOf(Seen(disk)).value) else Err(KeyLength)
    {
      var read := Call();
      if KeyFile !in disk {
        return Err(ReadKey(true));
      }
      if read == Fails {
        return Err(ReadKey(false));
      }
      match KeyIn(disk[KeyFile])
      case None => return Err(KeyLength);
      case Some(key) => return Ok(key);
    }

    method CreateKey(random: Key) returns (r: Result<Key>)
      requires Valid()
      modifies this
      ensures Valid() && EndOf(old(plan), plan)
      ensures old(history) <= history && Since(history, old(|history|), Seen(old(disk)), Seen(disk))
      ensures if AllWork(old(plan), 0, 6) then r == Ok(random) && Seen(disk) == With(Seen(old(disk)), KeyFile, Raw(random))
              else r.Err? && Seen(disk) == Seen(old(disk))
      ensures r.Ok? ==> Later(old(plan), plan, 7)
      ensures NeverTwice(old(plan)) ==> Tidy(old(disk), disk)
    {
      hide AllWork, EndOf, Since, Seen, With, Later, NeverTwice, Tidy, LeavesTemp;
      ghost var p := plan;
      TidyNow(disk);
      SinceNow(history, Seen(disk));
      AllWorkFirst(p, 0, 6);
      var delivered := Call();
      if delivered == Fails {
        return Err(GenerateKey);
      }
      ghost var p1 := plan;
      AllWorkLater(p, p1, 1, 0, 5);
      TidyAfter(p, p1);
      var written := WriteFileAtomic(KeyFile, Raw(random));
      EndOfEnd(p, p1, plan);
      if written {
        LaterLater(p, p1, plan, 1, 6);
      }
      r := if written then Ok(random) else Err(WriteKey);
    }

    /** `random` is what the random source would deliver. */
    method LoadOrCreateKey(random: Key) returns (r: Result<Key>)
      requires |random| == 32
      requires Valid()
      modifies this
      ensures Valid() && EndOf(old(plan), plan)
      ensures old(history) <= history && Since(history, old(|history|), Seen(old(disk)), Seen(disk))
      ensures Seen(disk) == if CreatesKey(Seen(old(disk)), old(plan)) then Seen(old(disk)).(key := Some(Raw(random))) else Seen(old(disk))
      ensures r.Ok? ==> KeyOf(Seen(disk)) == Some(r.value)
      ensures CreatesKey(Seen(old(disk)), old(plan)) ==> r == Ok(random)
      ensures var f := Seen(old(disk));
              r.Ok? <==> (KeyOf(f).Some? && At(old(plan), 0) == Works) || CreatesKey(f, old(plan))
      ensures r.Ok? ==> Later(old(plan), plan, LoadCalls(Seen(old(disk)), old(plan)))
      ensures NeverTwice(old(plan)) ==> Tidy(old(disk), disk)
    {
      hide AllWork, EndOf, Since, Later, NeverTwice, Tidy, LeavesTemp;
      ghost var p := plan;
      TidyNow(disk);
      SinceNow(history, Seen(disk));
      r := LoadKey();
      if r.Ok? {
        return;
      }
      ghost var p1 := plan;
      LaterAt(p, p1, 1, 0);
      if r.error == ReadKey(true) {
        AllWorkLater(p, p1, 1, 0, 6);
      } else {
        var found := Call();
        if found == Works {
          EndOfEnd(p, p1, plan);
          return;
        }
        LaterLater(p, p1, plan, 1, 1);
        AllWorkLater(p, plan, 2, 0, 6);
        EndOfEnd(p, p1, plan);
      }
      ghost var p2, skipped := plan, LoadCalls(Seen(disk), p) - 7;
      TidyAfter(p, p2);
      r := CreateKey(random);
      EndOfEnd(p, p2, plan);
      if r.Ok? {
        LaterLater(p, p2, plan, skipped, 7);
      }
    }

    method Load() returns (r: Result<Settings>)
      modifies this`plan
      ensures At(old(plan), 0) == At(old(plan), 1) == Works ==>
                match Read(Seen(disk))
                case Absent => r == Err(NotConfigured)
                case Unreadable => r.Err? && r.error != NotConfigured
                case Present(s) => r == Ok(s)
      ensures r.Ok? ==> Read(Seen(disk)) == Present(r.value)
      ensures r == Err(NotConfigured) <==> Read(Seen(disk)) == Absent
    {
      var read := Call();
      if ConfigFile !in disk {
        return Err(NotConfigured);
      }
      if read == Fails {
        return Err(ReadFailed);
      }
      var key := LoadKey();
      if key.Err? {
        return Err(key.error);
      }
      match Decrypt(key.value, disk[ConfigFile])
      case None => return Err(DecryptFailed);
      case Some(s) => return Ok(Defaulted(s));
    }

    /** The nonce and the configuration file. */
    method SealAndWrite(key: Key, settings: Settings, nonce: nat) returns (r: Result<()>)
      requires Valid()
      modifies this
      ensures Valid() && EndOf(old(plan), plan) && old(history) <= history
      ensures r.Ok? <==> AllWork(old(plan), 0, 6)
      ensures r.Ok? || r.error == if At(old(plan), 0) == Fails then EncryptFailed else WriteConfig
      ensures Seen(disk) == if r.Ok? then Seen(old(disk)).(config := Some(Sealed(key, nonce, settings))) else Seen(old(disk))
      ensures NeverTwice(old(plan)) ==> Tidy(old(disk), disk)
      ensures Since(history, old(|history|), Seen(old(disk)), Seen(disk))
    {
      hide Since, EndOf, AllWork, Seen, Later, NeverTwice, Tidy, LeavesTemp;
      ghost var p := plan;
      TidyNow(disk);
      AllWorkFirst(p, 0, 6);
      assert Since(history, |history|, Seen(disk), Seen(disk)) by { SinceNow(history, Seen(disk)); }
      var delivered := Call();
      ghost var p1 := plan;
      if delivered == Fails {
        return Err(EncryptFailed);
      }
      AllWorkLater(p, p1, 1, 0, 5);
      TidyAfter(p, p1);
      var ok := WriteFileAtomic(ConfigFile, Sealed(key, nonce, settings));
      EndOfEnd(p, p1, plan);
      r := if ok then Ok(()) else Err(WriteConfig);
    }

    /** The directory and the key. */
    method PrepareKey(random: Key) returns (r: Result<Key>)
      requires Valid() && |random| == 32
      modifies this
      ensures Valid() && EndOf(old(plan), plan) && old(history) <= history
      ensures KeyOf(Seen(old(disk))).Some? ==>
                Seen(disk) == if LosesKey(Seen(old(disk)), old(plan)) then Seen(old(disk)).(key := Some(Raw(random))) else Seen(old(disk))
      ensures Seen(disk) == Seen(old(disk)) || Seen(disk) == Seen(old(disk)).(key := Some(Raw(random)))
      ensures r.Ok? ==> KeyOf(Seen(disk)) == Some(r.value)
      ensures r.Ok? <==> GetsKey(Seen(old(disk)), old(plan))
      ensures r.Ok? ==> Later(old(plan), plan, KeyCalls(Seen(old(disk)), old(plan)))
      ensures NeverTwice(old(plan)) ==> Tidy(old(disk), disk)
      ensures Since(history, old(|history|), Seen(old(disk)), Seen(disk))
    {
      hide AllWork, Later, CreatesKey, LosesKey, NeverTwice, Tidy, GetsKey, KeyCalls, LoadCalls, EndOf, KeyOf, Seen, Since;
      ghost var before, p := Seen(disk), plan;
      TidyNow(disk);
      SinceNow(history, before);
      var made := Call();
      if made == Fails {
        LosesNothing(before, p);
        NoKeyWithoutDirectory(before, p);
        return Err(Mkdir);
      }
      ghost var p1 := plan;
      GetsKeyLater(before, p, p1);
      TidyAfter(p, p1);
      if KeyOf(before).Some? {
        LosesKeyLater(before, p, p1);
      }
      r := LoadOrCreateKey(random);
      EndOfEnd(p, p1, plan);
      if r.Ok? {
        LaterLater(p, p1, plan, 1, LoadCalls(before, p1));
      }
    }

    /** Defaults, directory, key, nonce, configuration; `keyed` are the files once the key is there. */
    method SaveSteps(cfg: Config, random: Key, nonce: nat) returns (r: Result<()>, ghost keyed: Files)
      requires Valid() && |random| == 32
      modifies this, cfg
      ensures Valid() && EndOf(old(plan), plan) && old(history) <= history && cfg.settings == Defaulted(old(cfg.settings))
      ensures KeyOf(Seen(old(disk))).Some? ==> keyed == if LosesKey(Seen(old(disk)), old(plan)) then Seen(old(disk)).(key := Some(Raw(random)))
                                                      else Seen(old(disk))
      ensures keyed == Seen(old(disk)) || keyed == Seen(old(disk)).(key := Some(Raw(random)))
      ensures keyed != Seen(old(disk)) ==> exists k :: old(|history|) <= k < |history| && Seen(history[k]) == keyed
      ensures r.Ok? <==> Saves(Seen(old(disk)), old(plan))
      ensures NeverTwice(old(plan)) ==> Tidy(old(disk), disk)
      ensures r.Err? ==> Seen(disk) == keyed
      ensures r.Ok? ==> KeyOf(keyed).Some? && Seen(disk) == keyed.(config := Some(Sealed(KeyOf(keyed).value, nonce, cfg.settings)))
      ensures forall k :: old(|history|) <= k < |history| ==> Seen(history[k]) in {Seen(old(disk)), keyed, Seen(disk)}
    {
      hide LosesKey, EndOf, KeyOf, Seen, Since, GetsKey, KeyCalls, AllWork, Later, NeverTwice, Tidy;
      ghost var p, h0, before, d0 := plan, history, Seen(disk), disk;
      cfg.ApplyDefaults();
      var key := PrepareKey(random);
      keyed := Seen(disk);
      ghost var p1, h1 := plan, history;
      if key.Err? {
        r := Err(key.error);
        StatesJoined(h0, h1, h1, before, keyed, keyed);
      } else {
        AllWorkLater(p, p1, KeyCalls(before, p), 0, 6);
        TidyAfter(p, p1);
        ghost var d1 := disk;
        r := SealAndWrite(key.value, cfg.settings, nonce);
        EndOfEnd(p, p1, plan);
        StatesJoined(h0, h1, history, before, keyed, Seen(disk));
        if NeverTwice(p) {
          TidyTidy(d0, d1, disk);
        }
      }
    }

    /**
      Crash consistency.  Whatever fails and wherever the machine stops, the files give the
      configuration from before or the new one, and a good key stays, unless a good key is
      taken for missing.  In that case, and only then, there is a moment at which a
      configuration that was readable is not.
      */
    method Save(cfg: Config?, random: Key, nonce: nat) returns (r: Result<()>)
      requires Valid() && |random| == 32
      modifies this, cfg
      ensures Valid() && old(history) <= history
      ensures EndOf(old(plan), plan)
      ensures KeyOf(Seen(disk)) == KeyOf(Seen(old(disk))) || KeyOf(Seen(disk)) == Some(random)
      ensures forall k :: old(|history|) <= k < |history| ==>
                KeyOf(Seen(history[k])) == KeyOf(Seen(old(disk))) || KeyOf(Seen(history[k])) == KeyOf(Seen(disk))
      ensures cfg != null && LosesKey(Seen(old(disk)), old(plan)) ==> KeyOf(Seen(disk)) == Some(random)
      ensures r.Ok? <==> cfg != null && Saves(Seen(old(disk)), old(plan))
      ensures NeverTwice(old(plan)) ==> Tidy(old(disk), disk)
      ensures cfg == null ==> r == Err(NilConfig) && disk == old(disk) && history == old(history)
      ensures cfg != null ==> cfg.settings == Defaulted(old(cfg.settings))
      ensures r.Ok? ==> cfg != null && Read(Seen(disk)) == Present(cfg.settings)
      ensures r.Err? ==> Seen(disk).config == Seen(old(disk)).config
      ensures var before := Seen(old(disk));
              r.Err? && Read(before) != Unreadable && !LosesKey(before, old(plan)) ==> Read(Seen(disk)) == Read(before)
      ensures var before := Seen(old(disk));
              Read(before) != Unreadable && !LosesKey(before, old(plan)) ==>
                forall k :: old(|history|) <= k < |history| ==>
                  && (Read(Seen(history[k])) == Read(before) || (cfg != null && Read(Seen(history[k])) == Present(cfg.settings)))
                  && (KeyOf(before).Some? ==> KeyOf(Seen(history[k])) == KeyOf(before))
      ensures var before := Seen(old(disk));
              cfg != null && Read(before).Present? && KeyOf(before) != Some(random) ==>
                (LosesKey(before, old(plan)) <==> exists k :: old(|history|) <= k < |history| && Read(Seen(history[k])) == Unreadable)
    {
      hide Tidy, NeverTwice, EndOf, Saves, With, OneMore;
      TidyNow(disk);
      EndOfSelf(plan);
      if cfg == null {
        return Err(NilConfig);
      }
      ghost var before := Seen(disk);
      ghost var keyed: Files;
      r, keyed := SaveSteps(cfg, random, nonce);
      DefaultsSettle(old(cfg.settings));
      hide LosesKey;
    }

    /**
      Any number of saves; `saved` says which of them returned no error, and `lost` whether one of
      them replaced a good key.  Unless one did, the disk reads as the last configuration saved.
      */
    method SaveAll(cfgs: seq<Config>, randoms: seq<Key>) returns (saved: seq<bool>, ghost lost: bool)
      requires Valid() && |randoms| == |cfgs| && forall k :: 0 <= k < |randoms| ==> |randoms[k]| == 32
      requires Read(Seen(disk)) != Unreadable
      modifies this, cfgs
      ensures Valid() && old(history) <= history && |saved| == |cfgs|
      ensures !lost ==> Read(Seen(disk)) == LastSaved(Read(Seen(old(disk))), old(Wanted(cfgs)), saved, |saved|)
      ensures NothingFails(old(plan)) && KeyUsable(Seen(old(disk))) ==> !lost && forall i :: 0 <= i < |saved| ==> saved[i]
      ensures !lost ==> forall k :: old(|history|) <= k < |history| ==>
                          OneOf(Read(Seen(history[k])), Read(Seen(old(disk))), old(Wanted(cfgs)))
      ensures !lost && KeyOf(Seen(old(disk))).Some? ==>
                forall k :: old(|history|) <= k < |history| ==> KeyOf(Seen(history[k])) == KeyOf(Seen(old(disk)))
      ensures NewKeys(KeyOf(Seen(old(disk))), randoms) ==> (lost <==> TwoKeys(history, old(|history|) - 1))
      ensures lost ==> exists k: nat :: LosesAt(old(plan), k)
      ensures NeverTwice(old(plan)) ==> !lost && Tidy(old(disk), disk)
      ensures lost && NewKeys(KeyOf(Seen(old(disk))), randoms) && Read(Seen(old(disk))).Present? ==>
                exists k :: old(|history|) <= k < |history| && Read(Seen(history[k])) == Unreadable
    {
      saved, lost := [], false;
      ghost var wanted, h0, p0, first := Wanted(cfgs), history, plan, Seen(disk);
      hide LosesKey, Seen, OneOf, EndOf, LosesAt, KeyOf, Read, OneKey, TwoKeys, NewKeys, NeverTwice, RunSoFar, SaveShown, Saves, NothingFails,
           KeyUsable, SaveTold, SoFarSaved, Tidy;
      RunStarts(h0, p0, wanted, randoms);
      ghost var d0 := disk;
      TidyNow(d0);
      NothingSaved(Read(first), wanted, []);
      for n := 0 to |cfgs|
        invariant Valid() && EndOf(p0, plan) && RunSoFar(lost, h0, history, p0, wanted, randoms, n)
        invariant forall i :: 0 <= i < |cfgs| ==> Present(Defaulted(cfgs[i].settings)) == wanted[i]
        invariant |saved| == n && Seen(h0[|h0| - 1]) == first && (!lost ==> SoFarSaved(Read(first), Read(Seen(disk)), wanted, saved))
        invariant NeverTwice(p0) ==> Tidy(d0, disk)
        invariant NothingFails(p0) && KeyUsable(first) ==> KeyUsable(Seen(disk)) && forall i :: 0 <= i < n ==> saved[i]
      {
        ghost var h1, p1, losing, f1 := history, plan, LosesKey(Seen(disk), plan), Seen(disk);
        TidyAfter(p0, p1);
        ghost var d1 := disk;
        var ok := SaveNext(cfgs[n], randoms[n], n, losing);
        if NeverTwice(p0) {
          TidyTidy(d0, d1, disk);
        }
        EndOfEnd(p0, p1, plan);
        if !lost {
          ReadableSoFar(h0, h1, p0, wanted, randoms, n);
        }
        NextSaved(lost, losing, Read(first), f1, Seen(disk), p0, p1, wanted, saved, ok);
        saved := saved + [ok];
        if lost {
          LostStays(losing, h0, h1, history, p0, wanted, randoms, n);
        } else if losing {
          LosesKeyAt(Seen(h1[|h1| - 1]), p0, p1);
          LostByOneMore(h0, h1, history, p0, wanted, randoms, n, |p0| - |p1|);
        } else {
          KeptByOneMore(h0, h1, history, p0, wanted, randoms, n);
        }
        lost := lost || losing;
      }
      NeverTwiceWhenNothingFails(p0);
      SavedAtLast(lost, Read(first), Read(Seen(disk)), wanted, saved);
      RunEnds(lost, h0, history, p0, wanted, randoms);
    }

    method SaveNext(cfg: Config, random: Key, nonce: nat, ghost losing: bool) returns (ok: bool)
      requires Valid() && |random| == 32 && losing == LosesKey(Seen(disk), plan)
      modifies this, cfg
      ensures Valid() && EndOf(old(plan), plan) && cfg.settings == Defaulted(old(cfg.settings))
      ensures SaveShown(losing, old(history), history, Present(cfg.settings), random)
      ensures NeverTwice(old(plan)) ==> Tidy(old(disk), disk)
      ensures ok == Saves(Seen(old(disk)), old(plan)) && SaveTold(ok, losing, Seen(old(disk)), Seen(disk), Present(cfg.settings))
    {
      hide LosesKey, Seen, EndOf, KeyOf, Read, Saves, Tidy, NeverTwice;
      ghost var p := plan;
      var r := Save(cfg, random, nonce);
      ok := r.Ok?;
      assert losing ==> KeyOf(Seen(old(disk))).Some? by { LosesGoodKey(Seen(old(disk)), p); }
    }
  }

  ghost function Wanted(cfgs: seq<Config>): (r: seq<Reading>)
    reads cfgs
    ensures |r| == |cfgs|
  {
    seq(|cfgs|, i requires 0 <= i < |cfgs| reads cfgs => Present(Defaulted(cfgs[i].settings)))
  }

  /** What was there at first, or one of the configurations that were saved; never something unreadable. */
  ghost predicate OneOf(r: Reading, first: Reading, wanted: seq<Reading>) {
    r != Unreadable && (r == first || r in wanted)
  }
}
