/** The Kyma synchronization context: it keeps a control-plane Kyma and its mirror on a
    remote (runtime) cluster in step. It bootstraps the remote namespace and the Kyma
    CRD, creates or fetches the mirror, pushes status, watcher labels and finalizer
    removal or deletion to it, and merges the module lists of mirrors into the
    control-plane Kyma. */
module Remote {
  import opened Api
  import opened Cluster

  /** The field manager the namespace apply patch declares. */
  const FieldManager: string := "kyma-sync-context"

  /** The context the namespace bootstrap wraps a patch error in. */
  const NamespaceErrorContext: string := "failed to ensure remote namespace exists"

  // ----------------------------------------------------------------------------------
  // Remote identity

  /** The identity of the mirror of `kyma`: the same name, and the sync namespace if one
      is configured, the control-plane namespace otherwise. */
  function RemoteObjectKey(kyma: KymaObject): (key: ObjectKey)
    ensures key.name == kyma.name
    ensures kyma.spec.sync.namespace != "" ==> key.namespace == kyma.spec.sync.namespace
    ensures kyma.spec.sync.namespace == "" ==> key.namespace == kyma.namespace
  {
    var namespace := if kyma.spec.sync.namespace != "" then kyma.spec.sync.namespace else kyma.namespace;
    ObjectKey(namespace, kyma.name)
  }

  /** The mirror's identity depends on nothing but the name, the namespace and the sync
      namespace, so status, labels, modules and finalizers never move it; and its
      namespace is one of the two candidates. */
  lemma RemoteObjectKeyStable(a: KymaObject, b: KymaObject)
    requires a.name == b.name && a.namespace == b.namespace && a.spec.sync.namespace == b.spec.sync.namespace
    ensures RemoteObjectKey(a) == RemoteObjectKey(b)
    ensures RemoteObjectKey(a).namespace in {a.namespace, a.spec.sync.namespace}
  {
  }

  // ----------------------------------------------------------------------------------
  // The mirror a first synchronization creates

  /** The object created remotely for `kyma`: the mirror identity and a copy of the
      desired state, with the module list emptied when module copying is switched off. */
  function MirrorOf(kyma: KymaObject): (m: KymaObject)
    ensures KeyOf(m) == RemoteObjectKey(kyma)
    ensures m.spec.(modules := kyma.spec.modules) == kyma.spec
    ensures kyma.spec.sync.noModuleCopy ==> m.spec.modules == []
    ensures !kyma.spec.sync.noModuleCopy ==> m.spec.modules == kyma.spec.modules
    ensures m == KeyOnly(KeyOf(m)).(spec := m.spec)
  {
    var spec := if kyma.spec.sync.noModuleCopy then kyma.spec.(modules := []) else kyma.spec;
    KeyOnly(RemoteObjectKey(kyma)).(spec := spec)
  }

  /** Once the mirror created for `kyma` is stored and the remote cluster serves the
      kind, the next create-or-fetch reads that same mirror back: creation converges. */
  lemma MirrorFetchedBack(runtime: Cluster.Client, kyma: KymaObject)
    requires runtime.ServesKyma() && GetVerb !in runtime.failing
    requires RemoteObjectKey(kyma) in runtime.kymas && runtime.kymas[RemoteObjectKey(kyma)] == MirrorOf(kyma)
    ensures runtime.KymaLookup(RemoteObjectKey(kyma)) == Ok(MirrorOf(kyma))
  {
  }

  /** On a cluster that serves the kind and holds the mirror's namespace, a mirror that
      is not found can be created, unless creates are rejected: the namespace bootstrap
      is what lets the first synchronization create the mirror. */
  lemma MirrorCreatable(runtime: Cluster.Client, kyma: KymaObject)
    requires runtime.KymaLookup(RemoteObjectKey(kyma)) == Err(NotFound)
    requires RemoteObjectKey(kyma).namespace in runtime.namespaces
    ensures runtime.CreateOutcome(MirrorOf(kyma)) == runtime.Rejects(CreateVerb)
  {
  }

  // ----------------------------------------------------------------------------------
  // CRD bootstrap

  /** What the CRD bootstrap does after its two reads. */
  datatype CrdStep =
    | ControlPlaneFailed(error: Error)
    | Install(crd: Crd)
    | RemoteFailed(error: Error)
    | UpToDate

  /** The decision the CRD bootstrap takes from the control-plane read and the remote
      read. A failed remote read leaves the empty CRD behind, which lists no version. */
  function CrdPlan(fromControlPlane: Result<Crd>, fromRuntime: Result<Crd>): (step: CrdStep)
    ensures step.ControlPlaneFailed? <==> fromControlPlane.Err?
    ensures step.ControlPlaneFailed? ==> step.error == fromControlPlane.error
    ensures step.Install? ==> fromControlPlane == Ok(step.crd)
    ensures step.UpToDate? ==> fromRuntime.Ok? && ContainsLatestVersion(fromRuntime.value, Version)
  {
    if fromControlPlane.Err? then ControlPlaneFailed(fromControlPlane.error)
    else
      var remote := if fromRuntime.Ok? then fromRuntime.value else EmptyCrd;
      if fromRuntime == Err(NotFound) || !ContainsLatestVersion(remote, Version) then Install(fromControlPlane.value)
      else if fromRuntime.Err? then RemoteFailed(fromRuntime.error)
      else UpToDate
  }

  /** The calls the CRD bootstrap sends to the remote cluster. */
  function CrdCalls(step: CrdStep, name: string): (calls: seq<Call>)
    ensures calls == [] <==> step.ControlPlaneFailed?
    ensures calls != [] ==> calls[0] == Call.GetCrd(name)
    ensures Call.PatchCrd(name) in calls ==> step.Install?
    ensures step.Install? ==> calls[|calls| - 1] == Call.PatchCrd(step.crd.name)
  {
    match step
    case ControlPlaneFailed(_) => []
    case Install(crd) => [Call.GetCrd(name), Call.PatchCrd(crd.name)]
    case _ => [Call.GetCrd(name)]
  }

  /** The error the CRD bootstrap returns, given the answer to its patch. */
  function CrdError(step: CrdStep, patchError: Option<Error>): (err: Option<Error>)
    ensures err.None? <==> step.UpToDate? || (step.Install? && patchError.None?)
    ensures step.Install? ==> err == patchError
  {
    match step
    case ControlPlaneFailed(e) => Some(e)
    case Install(_) => patchError
    case RemoteFailed(e) => Some(e)
    case UpToDate => None
  }

  /** The remote CRD table after the bootstrap. */
  function CrdsAfter(crds: map<string, Crd>, name: string, step: CrdStep, err: Option<Error>): (r: map<string, Crd>)
    ensures step.Install? && err.None? ==> name in r && r[name] == step.crd
    ensures !(step.Install? && err.None?) ==> r == crds
    ensures forall n | n != name :: (n in r <==> n in crds) && (n in r ==> r[n] == crds[n])
  {
    if step.Install? && err.None? then crds[name := step.crd] else crds
  }

  /** The decision table of the CRD bootstrap. A failed control-plane read always
      aborts; a missing remote CRD or one without the current version is installed
      from the control plane; a current one is left alone. As written, a remote read
      that fails for any reason also leads to an install: that failure is never
      returned. */
  lemma CrdDecisionTable(cp: Result<Crd>, rt: Result<Crd>)
    ensures cp.Err? ==> CrdPlan(cp, rt) == ControlPlaneFailed(cp.error)
    ensures cp.Ok? && rt == Err(NotFound) ==> CrdPlan(cp, rt) == Install(cp.value)
    ensures cp.Ok? && rt.Ok? && !ContainsLatestVersion(rt.value, Version) ==> CrdPlan(cp, rt) == Install(cp.value)
    ensures cp.Ok? && rt.Ok? && ContainsLatestVersion(rt.value, Version) ==> CrdPlan(cp, rt) == UpToDate
    ensures cp.Ok? && rt.Err? ==> CrdPlan(cp, rt) == Install(cp.value)
    ensures !CrdPlan(cp, rt).RemoteFailed?
  {
  }

  /** Once an install of a control-plane CRD that lists the current version went
      through, a later bootstrap that reads the remote table left behind finds it up to
      date, so it patches nothing and fails with nothing. */
  lemma CrdBootstrapIdempotent(runtime: Cluster.Client, before: map<string, Crd>, name: string, crd: Crd)
    requires ContainsLatestVersion(crd, Version) && GetCrdVerb !in runtime.failing
    requires runtime.crds == CrdsAfter(before, name, Install(crd), None)
    ensures CrdPlan(Ok(crd), runtime.CrdLookup(name)) == UpToDate
  {
  }

  /** The remote CRD read can fail on its own while the cluster still answers the Kyma
      read with NoKindMatch; the bootstrap then installs the control-plane CRD anyway. */
  lemma CrdReadFailureReachable(runtime: Cluster.Client, key: ObjectKey, crd: Crd)
    requires GetCrdVerb in runtime.failing && GetVerb !in runtime.failing && !runtime.ServesKyma()
    ensures runtime.KymaLookup(key) == Err(NoKindMatch)
    ensures runtime.CrdLookup(KymaCrdName).Err? && runtime.CrdLookup(KymaCrdName) != Err(NotFound)
    ensures CrdPlan(Ok(crd), runtime.CrdLookup(KymaCrdName)) == Install(crd)
  {
  }

  // ----------------------------------------------------------------------------------
  // Namespace bootstrap

  /** Applying the namespace again with the same labels, at any later time, leaves its
      labels, the managed-by label among them, as the first apply left them. */
  lemma NamespaceApplyIdempotent(existing: Option<Namespace>, first: Namespace, again: Namespace)
    requires again.name == first.name && again.labels == first.labels
    ensures Applied(Some(Applied(existing, first)), again).labels == Applied(existing, first).labels
    ensures ManagedByLabel in first.labels ==>
      Applied(Some(Applied(existing, first)), again).labels[ManagedByLabel] == first.labels[ManagedByLabel]
  {
  }

  // ----------------------------------------------------------------------------------
  // Watcher labels

  /** The labels of a mirror after the watcher labels went in: owned-by names the
      control-plane Kyma as `<namespace>/<name>`, watched-by names the operator, and
      every other label is kept. */
  function WatcherLabels(existing: Option<map<string, string>>, cpNamespace: string, cpName: string): (labels: map<string, string>)
    ensures OwnedByLabel in labels && labels[OwnedByLabel] == cpNamespace + "/" + cpName
    ensures WatchedByLabel in labels && labels[WatchedByLabel] == OperatorName
    ensures forall k :: k in labels <==> k == OwnedByLabel || k == WatchedByLabel || (existing.Some? && k in existing.value)
    ensures existing.Some? ==> forall k | k in existing.value && k != OwnedByLabel && k != WatchedByLabel ::
      labels[k] == existing.value[k]
  {
    var base := if existing.Some? then existing.value else map[];
    base[OwnedByLabel := cpNamespace + "/" + cpName][WatchedByLabel := OperatorName]
  }

  // ----------------------------------------------------------------------------------
  // Finalizer removal

  /** The finalizers with every occurrence of `f` taken out, the others in order. */
  function RemoveFinalizer(finalizers: seq<string>, f: string): (r: seq<string>)
    ensures f !in r
    ensures forall x :: x in r <==> x in finalizers && x != f
    ensures multiset(r) == multiset(finalizers)[f := 0]
    ensures |r| <= |finalizers|
    ensures f !in finalizers ==> r == finalizers
  {
    if finalizers == [] then []
    else
      assert finalizers == [finalizers[0]] + finalizers[1..];
      (if finalizers[0] == f then [] else [finalizers[0]]) + RemoveFinalizer(finalizers[1..], f)
  }

  // ----------------------------------------------------------------------------------
  // Virtual Kyma: merging module lists by name

  /** The names of a module list. */
  function Names(ms: seq<Module>): set<string> {
    set i | 0 <= i < |ms| :: ms[i].name
  }

  /** The names across several module lists. */
  function AllNames(lists: seq<seq<Module>>): set<string> {
    set i, j | 0 <= i < |lists| && 0 <= j < |lists[i]| :: lists[i][j].name
  }

  /** `i` is the last position of `ms` that carries its name. */
  ghost predicate LastOfName(ms: seq<Module>, i: int) {
    0 <= i < |ms| && forall j | i < j < |ms| :: ms[j].name != ms[i].name
  }

  /** `lists[i][j]` is the last occurrence of its name across `lists`, lists in order. */
  ghost predicate LastAmongLists(lists: seq<seq<Module>>, i: int, j: int) {
    0 <= i < |lists| && LastOfName(lists[i], j)
    && forall k | i < k < |lists| :: lists[i][j].name !in Names(lists[k])
  }

  /** Every entry is filed under its own name. */
  ghost predicate KeyedByName(m: map<string, Module>) {
    forall n | n in m :: m[n].name == n
  }

  /** `ms` holds exactly the entries of `m`, one per name, in some order. */
  ghost predicate ListsExactly(ms: seq<Module>, m: map<string, Module>) {
    && (forall i | 0 <= i < |ms| :: ms[i].name in m && m[ms[i].name] == ms[i])
    && (forall n | n in m :: n in Names(ms))
    && (forall i, j | 0 <= i < j < |ms| :: ms[i].name != ms[j].name)
  }

  /** `m` with the modules of `ms` filed by name, later entries overwriting earlier ones. */
  function InsertAll(m: map<string, Module>, ms: seq<Module>): (r: map<string, Module>)
    ensures m.Keys <= r.Keys
    ensures ms != [] ==> ms[|ms| - 1].name in r && r[ms[|ms| - 1].name] == ms[|ms| - 1]
    decreases |ms|
  {
    if ms == [] then m else InsertAll(m, ms[..|ms| - 1])[ms[|ms| - 1].name := ms[|ms| - 1]]
  }

  /** The modules of all remote lists, filed by name, later lists overwriting earlier ones. */
  function MergeRemotes(lists: seq<seq<Module>>): (r: map<string, Module>)
    ensures lists != [] ==> MergeRemotes(lists[..|lists| - 1]).Keys <= r.Keys
    decreases |lists|
  {
    if lists == [] then map[] else InsertAll(MergeRemotes(lists[..|lists| - 1]), lists[|lists| - 1])
  }

  /** The virtual module set: the remote lists' modules overwritten by the control
      plane's own modules. */
  function VirtualModules(own: seq<Module>, lists: seq<seq<Module>>): (r: map<string, Module>)
    ensures MergeRemotes(lists).Keys <= r.Keys
    ensures own != [] ==> own[|own| - 1].name in r && r[own[|own| - 1].name] == own[|own| - 1]
  {
    InsertAll(MergeRemotes(lists), own)
  }

  lemma NamesSnoc(ms: seq<Module>, x: Module)
    ensures Names(ms + [x]) == Names(ms) + {x.name}
  {
    var ms' := ms + [x];
    forall n | n in Names(ms') ensures n in Names(ms) + {x.name} {
      var i :| 0 <= i < |ms'| && ms'[i].name == n;
      if i < |ms| { assert ms[i] == ms'[i]; }
    }
    forall n | n in Names(ms) ensures n in Names(ms') {
      var i :| 0 <= i < |ms| && ms[i].name == n;
      assert ms'[i] == ms[i];
    }
    assert ms'[|ms|] == x;
  }

  lemma {:induction false} InsertAllKeys(m: map<string, Module>, ms: seq<Module>)
    ensures InsertAll(m, ms).Keys == m.Keys + Names(ms)
    decreases |ms|
  {
    if ms != [] {
      var init, last := ms[..|ms| - 1], ms[|ms| - 1];
      InsertAllKeys(m, init);
      NamesSnoc(init, last);
      assert init + [last] == ms;
    }
  }

  lemma {:induction false} InsertAllLast(m: map<string, Module>, ms: seq<Module>, i: int)
    requires LastOfName(ms, i)
    ensures ms[i].name in InsertAll(m, ms) && InsertAll(m, ms)[ms[i].name] == ms[i]
    decreases |ms|
  {
    if i < |ms| - 1 {
      var init := ms[..|ms| - 1];
      assert init[i] == ms[i];
      assert LastOfName(init, i);
      InsertAllLast(m, init, i);
    }
  }

  lemma {:induction false} InsertAllKeeps(m: map<string, Module>, ms: seq<Module>, n: string)
    requires n in m && n !in Names(ms)
    ensures n in InsertAll(m, ms) && InsertAll(m, ms)[n] == m[n]
    decreases |ms|
  {
    if ms != [] {
      var init, last := ms[..|ms| - 1], ms[|ms| - 1];
      NamesSnoc(init, last);
      assert init + [last] == ms;
      InsertAllKeeps(m, init, n);
    }
  }

  /** Filing a list into a map: the names added are exactly the list's names, each
      maps to its last entry in the list, and other entries are kept. */
  lemma InsertAllSpec(m: map<string, Module>, ms: seq<Module>)
    ensures InsertAll(m, ms).Keys == m.Keys + Names(ms)
    ensures forall i | LastOfName(ms, i) :: InsertAll(m, ms)[ms[i].name] == ms[i]
    ensures forall n | n in m && n !in Names(ms) :: InsertAll(m, ms)[n] == m[n]
  {
    InsertAllKeys(m, ms);
    forall i | LastOfName(ms, i) ensures InsertAll(m, ms)[ms[i].name] == ms[i] {
      InsertAllLast(m, ms, i);
    }
    forall n | n in m && n !in Names(ms) ensures InsertAll(m, ms)[n] == m[n] {
      InsertAllKeeps(m, ms, n);
    }
  }

  lemma {:induction false} MergeRemotesSpec(lists: seq<seq<Module>>)
    ensures MergeRemotes(lists).Keys == AllNames(lists)
    ensures forall i, j | LastAmongLists(lists, i, j) :: MergeRemotes(lists)[lists[i][j].name] == lists[i][j]
  {
    if lists != [] {
      var init, last := lists[..|lists| - 1], lists[|lists| - 1];
      var prev := MergeRemotes(init);
      MergeRemotesSpec(init);
      InsertAllSpec(prev, last);
      assert AllNames(lists) == AllNames(init) + Names(last) by {
        forall n | n in AllNames(lists) ensures n in AllNames(init) + Names(last) {
          var i, j :| 0 <= i < |lists| && 0 <= j < |lists[i]| && lists[i][j].name == n;
          if i < |lists| - 1 { assert init[i] == lists[i]; } else { assert last[j].name == n; }
        }
        forall n | n in AllNames(init) ensures n in AllNames(lists) {
          var i, j :| 0 <= i < |init| && 0 <= j < |init[i]| && init[i][j].name == n;
          assert lists[i] == init[i];
        }
        forall n | n in Names(last) ensures n in AllNames(lists) {
          var j :| 0 <= j < |last| && last[j].name == n;
          assert lists[|lists| - 1][j].name == n;
        }
      }
      forall i, j | LastAmongLists(lists, i, j) ensures MergeRemotes(lists)[lists[i][j].name] == lists[i][j] {
        if i < |lists| - 1 {
          assert init[i] == lists[i];
          assert lists[i][j].name !in Names(last);
          assert LastAmongLists(init, i, j);
        } else {
          assert LastOfName(last, j);
        }
      }
    }
  }

  /** The virtual module set holds one entry per name found in the control-plane list
      or in any remote list. A name the control plane lists maps to the control plane's
      (last) entry for it, whatever the remotes hold; any other name maps to its last
      occurrence in the last remote list that has it. */
  lemma VirtualModulesSpec(own: seq<Module>, lists: seq<seq<Module>>)
    ensures VirtualModules(own, lists).Keys == Names(own) + AllNames(lists)
    ensures KeyedByName(VirtualModules(own, lists))
    ensures forall i | LastOfName(own, i) :: VirtualModules(own, lists)[own[i].name] == own[i]
    ensures forall i, j | LastAmongLists(lists, i, j) && lists[i][j].name !in Names(own) ::
      VirtualModules(own, lists)[lists[i][j].name] == lists[i][j]
  {
    MergeRemotesSpec(lists);
    InsertAllSpec(MergeRemotes(lists), own);
    var r := VirtualModules(own, lists);
    forall n | n in r ensures r[n].name == n {
      if n in Names(own) {
        var i := LastIndexOf(own, n);
        assert own[i].name == n;
      } else {
        var i, j := LastInLists(lists, n);
        assert lists[i][j].name == n;
      }
    }
  }

  /** The last position of `ms` carrying name `n`. */
  lemma LastIndexOf(ms: seq<Module>, n: string) returns (i: int)
    requires n in Names(ms)
    ensures LastOfName(ms, i) && ms[i].name == n
  {
    i := |ms| - 1;
    while ms[i].name != n
      invariant 0 <= i < |ms|
      invariant forall j | i < j < |ms| :: ms[j].name != n
      invariant exists j | 0 <= j <= i :: ms[j].name == n
      decreases i
    {
      i := i - 1;
    }
  }

  /** The last occurrence of name `n` across `lists`. */
  lemma LastInLists(lists: seq<seq<Module>>, n: string) returns (i: int, j: int)
    requires n in AllNames(lists)
    ensures LastAmongLists(lists, i, j) && lists[i][j].name == n
  {
    i := |lists| - 1;
    while n !in Names(lists[i])
      invariant 0 <= i < |lists|
      invariant forall k | i < k < |lists| :: n !in Names(lists[k])
      invariant exists k, l | 0 <= k <= i && 0 <= l < |lists[k]| :: lists[k][l].name == n
      decreases i
    {
      i := i - 1;
    }
    j := LastIndexOf(lists[i], n);
  }

  /** Merging again, with the merged list as the control plane's list and the same
      remotes, yields the same module set. */
  lemma VirtualModulesIdempotent(own: seq<Module>, lists: seq<seq<Module>>, merged: seq<Module>)
    requires ListsExactly(merged, VirtualModules(own, lists))
    ensures VirtualModules(merged, lists) == VirtualModules(own, lists)
  {
    var r := VirtualModules(own, lists);
    var r' := VirtualModules(merged, lists);
    VirtualModulesSpec(own, lists);
    MergeRemotesSpec(lists);
    InsertAllSpec(MergeRemotes(lists), merged);
    assert Names(merged) == r.Keys;
    forall n | n in r' ensures r'[n] == r[n] {
      var i := LastIndexOf(merged, n);
    }
  }

  /** Appending the entry of one more name keeps a listing exact. */
  lemma ListsExactlyStep(merged: seq<Module>, m: map<string, Module>, rest: set<string>, n: string)
    requires KeyedByName(m) && rest <= m.Keys && n in rest
    requires ListsExactly(merged, m - rest)
    ensures ListsExactly(merged + [m[n]], m - (rest - {n}))
  {
    NamesSnoc(merged, m[n]);
    var merged' := merged + [m[n]];
    forall i | 0 <= i < |merged'| ensures merged'[i].name in m - (rest - {n}) && (m - (rest - {n}))[merged'[i].name] == merged'[i] {
      if i < |merged| { assert merged'[i] == merged[i]; }
    }
    forall i, j | 0 <= i < j < |merged'| ensures merged'[i].name != merged'[j].name {
      if j < |merged| { assert merged'[i] == merged[i] && merged'[j] == merged[j]; }
      else { assert merged'[i] == merged[i]; assert merged[i].name in m - rest; }
    }
  }

  /** The remote Kymas' module lists, in the order the remotes are given. */
  function ModuleLists(remotes: seq<Kyma>): (lists: seq<seq<Module>>)
    reads remotes
    ensures |lists| == |remotes|
    ensures forall i | 0 <= i < |remotes| :: lists[i] == remotes[i].spec.modules
    decreases |remotes|
  {
    if remotes == [] then []
    else ModuleLists(remotes[..|remotes| - 1]) + [remotes[|remotes| - 1].spec.modules]
  }

  // ----------------------------------------------------------------------------------
  // The synchronization context

  class KymaSynchronizationContext {
    const controlPlane: Client
    const runtime: Client

    /** The two clients are distinct objects. */
    ghost predicate Valid() {
      controlPlane != runtime
    }

    constructor (controlPlane: Client, runtime: Client)
      requires controlPlane != runtime
      ensures Valid() && this.controlPlane == controlPlane && this.runtime == runtime
    {
      this.controlPlane, this.runtime := controlPlane, runtime;
    }

    /** Reads the mirror of `controlPlaneKyma` into a fresh object. */
    method GetRemotelySyncedKyma(controlPlaneKyma: Kyma) returns (remote: Kyma?, err: Option<Error>)
      modifies runtime`log
      ensures var got := old(runtime.KymaLookup(RemoteObjectKey(controlPlaneKyma.Value())));
        && (got.Ok? ==> remote != null && fresh(remote) && remote.Value() == got.value && err.None?)
        && (got.Err? ==> remote == null && err == Some(got.error))
      ensures runtime.log == old(runtime.log) + [Call.GetKyma(RemoteObjectKey(controlPlaneKyma.Value()))]
    {
      var got := runtime.Get(RemoteObjectKey(controlPlaneKyma.Value()));
      if got.Err? {
        return null, Some(got.error);
      }
      remote := new Kyma(got.value);
      err := None;
    }

    /** Applies the target namespace, labelled as managed by the operator and stamped
        with `now`, to the remote cluster with one forced server-side apply. */
    method EnsureRemoteNamespaceExists(kyma: Kyma, now: string) returns (err: Option<Error>)
      modifies runtime`namespaces, runtime`log
      ensures var ns := Namespace(RemoteObjectKey(kyma.Value()).namespace,
                                  map[ManagedByLabel := OperatorName], map[LastSyncAnnotation := now]);
        && runtime.log == old(runtime.log) + [Call.ApplyNamespace(ns, PatchOptions(true, FieldManager))]
        && (err.Some? <==> ApplyNamespaceVerb in old(runtime.failing))
        && (err.Some? ==> err.value == Wrapped(NamespaceErrorContext, old(runtime.Rejects(ApplyNamespaceVerb)).value))
        && runtime.namespaces == if err.None?
             then old(runtime.namespaces)[ns.name := Applied(if ns.name in old(runtime.namespaces) then Some(old(runtime.namespaces)[ns.name]) else None, ns)]
             else old(runtime.namespaces)
      ensures err.None? ==> RemoteObjectKey(kyma.Value()).namespace in runtime.namespaces
    {
      var namespace := Namespace(kyma.namespace, map[ManagedByLabel := OperatorName], map[LastSyncAnnotation := now]);
      if kyma.spec.sync.namespace != "" {
        namespace := namespace.(name := kyma.spec.sync.namespace);
      }
      var force := true;
      var e := runtime.ApplyNamespacePatch(namespace, PatchOptions(force, FieldManager));
      if e.Some? {
        return Some(Wrapped(NamespaceErrorContext, e.value));
      }
      return None;
    }

    /** Installs the control plane's CRD for `plural` on the remote cluster when the
        remote one is missing or does not list the current version. */
    method CreateOrUpdateCRD(plural: string) returns (err: Option<Error>)
      requires Valid()
      modifies controlPlane`log, runtime`crds, runtime`log
      ensures var name := CrdName(plural);
              var step := old(CrdPlan(controlPlane.CrdLookup(name), runtime.CrdLookup(name)));
        && controlPlane.log == old(controlPlane.log) + [Call.GetCrd(name)]
        && runtime.log == old(runtime.log) + CrdCalls(step, name)
        && err == CrdError(step, old(runtime.Rejects(PatchCrdVerb)))
        && runtime.crds == CrdsAfter(old(runtime.crds), name, step, err)
      ensures var cp := old(controlPlane.CrdLookup(CrdName(plural)));
        err.None? && cp.Ok? && ContainsLatestVersion(cp.value, Version) ==>
          CrdName(plural) in runtime.crds && ContainsLatestVersion(runtime.crds[CrdName(plural)], Version)
    {
      var name := plural + "." + Group;
      var crd := controlPlane.GetCrdNamed(name);
      if crd.Err? {
        return Some(crd.error);
      }
      var got := runtime.GetCrdNamed(name);
      var crdFromRuntime := if got.Ok? then got.value else EmptyCrd;
      if got == Err(NotFound) || !ContainsLatestVersion(crdFromRuntime, Version) {
        err := runtime.PatchCrdFrom(crd.value);
        return;
      }
      if got.Err? {
        // unreachable: a failed read leaves the empty CRD, which lists no version
        assert false;
      }
      return None;
    }

    /** Fetches the mirror of `kyma`; installs the Kyma CRD when the remote cluster does
        not know the kind, and creates the mirror when it does not exist. */
    method CreateOrFetchRemoteKyma(kyma: Kyma) returns (remote: Kyma?, err: Option<Error>)
      requires Valid()
      modifies controlPlane`log, runtime`log, runtime`kymas, runtime`crds
      ensures (remote == null) == err.Some?
      ensures remote != null ==> fresh(remote)
      // the mirror exists: it is returned as fetched
      ensures var key := RemoteObjectKey(old(kyma.Value()));
        old(runtime.KymaLookup(key)).Ok? ==>
          && remote != null && remote.Value() == old(runtime.KymaLookup(key)).value
          && runtime.log == old(runtime.log) + [Call.GetKyma(key)]
          && runtime.kymas == old(runtime.kymas) && runtime.crds == old(runtime.crds)
          && controlPlane.log == old(controlPlane.log)
      // the read failed for another reason: the failure is returned, nothing is created
      ensures var key := RemoteObjectKey(old(kyma.Value()));
        old(runtime.KymaLookup(key)).Err? && old(runtime.KymaLookup(key)).error != NotFound
          && old(runtime.KymaLookup(key)).error != NoKindMatch ==>
          && err == Some(old(runtime.KymaLookup(key)).error)
          && runtime.log == old(runtime.log) + [Call.GetKyma(key)]
          && runtime.kymas == old(runtime.kymas) && runtime.crds == old(runtime.crds)
          && controlPlane.log == old(controlPlane.log)
      // the mirror is missing: it is created from the control-plane desired state
      ensures var key := RemoteObjectKey(old(kyma.Value()));
        old(runtime.KymaLookup(key)) == Err(NotFound) ==>
          && runtime.log == old(runtime.log) + [Call.GetKyma(key), Call.CreateKyma(key)]
          && err == old(runtime.CreateOutcome(MirrorOf(kyma.Value())))
          && runtime.kymas == (if err.None? then old(runtime.kymas)[key := MirrorOf(old(kyma.Value()))] else old(runtime.kymas))
          && (err.None? ==> remote.Value() == MirrorOf(old(kyma.Value())))
          && runtime.crds == old(runtime.crds) && controlPlane.log == old(controlPlane.log)
      // the kind is unknown: the CRD is bootstrapped once, and nothing is created
      ensures var key := RemoteObjectKey(old(kyma.Value()));
        old(runtime.KymaLookup(key)) == Err(NoKindMatch) ==>
          var step := old(CrdPlan(controlPlane.CrdLookup(KymaCrdName), runtime.CrdLookup(KymaCrdName)));
          && controlPlane.log == old(controlPlane.log) + [Call.GetCrd(KymaCrdName)]
          && runtime.log == old(runtime.log) + [Call.GetKyma(key)] + CrdCalls(step, KymaCrdName)
          && err == CrdError(step, old(runtime.Rejects(PatchCrdVerb)))
          && runtime.crds == CrdsAfter(old(runtime.crds), KymaCrdName, step, err)
          && runtime.kymas == old(runtime.kymas)
          && (err.None? ==> remote.Value() == KeyOnly(key))
          && (err.None? && step.Install? && ContainsLatestVersion(step.crd, Version) ==> runtime.ServesKyma())
    {
      ghost var key := RemoteObjectKey(kyma.Value());
      var remoteKyma := KeyOnly(ObjectKey(kyma.namespace, kyma.name));
      if kyma.spec.sync.namespace != "" {
        remoteKyma := remoteKyma.(namespace := kyma.spec.sync.namespace);
      }
      assert remoteKyma == KeyOnly(key);
      var got := runtime.Get(KeyOf(remoteKyma));
      err := if got.Err? then Some(got.error) else None;
      if got.Ok? {
        remoteKyma := got.value;
      }

      if err == Some(NoKindMatch) {
        var e := CreateOrUpdateCRD(KymaPlural);
        if e.Some? {
          return null, e;
        }
        // the kind is served now
        err := None;
      }

      if err == Some(NotFound) {
        remoteKyma := remoteKyma.(spec := kyma.spec);
        if kyma.spec.sync.noModuleCopy {
          remoteKyma := remoteKyma.(spec := remoteKyma.spec.(modules := []));
        }
        err := runtime.Create(remoteKyma);
        if err.Some? {
          return null, err;
        }
      } else if err.Some? {
        return null, err;
      }
      remote := new Kyma(remoteKyma);
    }

    /** Copies the control-plane status to the mirror and writes it; unless the mirror
        is being deleted, then sets the watcher labels and the last-synchronization
        stamp and writes the mirror. */
    method SynchronizeRemoteKyma(controlPlaneKyma: Kyma, remoteKyma: Kyma, now: string) returns (err: Option<Error>)
      modifies remoteKyma, runtime`kymas, runtime`log
      ensures var key := KeyOf(old(remoteKyma.Value()));
              var synced := old(remoteKyma.Value()).(status := old(controlPlaneKyma.status));
              var statusError := old(runtime.WriteOutcome(UpdateStatusVerb, key));
        statusError.Some? ==>
          && err == statusError && remoteKyma.Value() == synced
          && runtime.kymas == old(runtime.kymas)
          && runtime.log == old(runtime.log) + [Call.UpdateKymaStatus(key)]
      ensures var key := KeyOf(old(remoteKyma.Value()));
              var synced := old(remoteKyma.Value()).(status := old(controlPlaneKyma.status));
              var statusError := old(runtime.WriteOutcome(UpdateStatusVerb, key));
        statusError.None? && synced.deletionTimestamp.Some? ==>
          && err.None? && remoteKyma.Value() == synced
          && runtime.kymas == old(runtime.kymas)[key := StatusWritten(old(runtime.kymas)[key], synced)]
          && runtime.log == old(runtime.log) + [Call.UpdateKymaStatus(key)]
      ensures var key := KeyOf(old(remoteKyma.Value()));
              var synced := old(remoteKyma.Value()).(status := old(controlPlaneKyma.status));
              var statusError := old(runtime.WriteOutcome(UpdateStatusVerb, key));
              var labelled := synced.(labels := Some(WatcherLabels(synced.labels, old(controlPlaneKyma.namespace), old(controlPlaneKyma.name))),
                                      annotations := synced.annotations[LastSyncAnnotation := now]);
        statusError.None? && synced.deletionTimestamp.None? ==>
          var afterStatus := old(runtime.kymas)[key := StatusWritten(old(runtime.kymas)[key], synced)];
          && remoteKyma.Value() == labelled
          && err == old(runtime.Rejects(UpdateVerb))
          && runtime.kymas == (if err.None? then Written(afterStatus, key, SpecWritten(afterStatus[key], labelled)) else afterStatus)
          && runtime.log == old(runtime.log) + [Call.UpdateKymaStatus(key), Call.UpdateKyma(key)]
    {
      remoteKyma.status := controlPlaneKyma.status;
      err := runtime.UpdateStatus(remoteKyma.Value());
      if err.Some? {
        return;
      }
      if remoteKyma.deletionTimestamp.Some? {
        return None;
      }
      InsertWatcherLabels(controlPlaneKyma, remoteKyma);
      remoteKyma.SetLastSync(now);
      err := runtime.Update(remoteKyma.Value());
    }

    /** Replaces the control-plane module list by the virtual module set of the Kyma
        and its remotes, one entry per name, in no particular order. */
    method ReplaceWithVirtualKyma(kyma: Kyma, remotes: seq<Kyma>)
      modifies kyma`spec
      ensures kyma.spec == old(kyma.spec).(modules := kyma.spec.modules)
      ensures ListsExactly(kyma.spec.modules, VirtualModules(old(kyma.spec.modules), old(ModuleLists(remotes))))
    {
      var spec := kyma.spec;
      var modules := CollectModules(spec.modules, remotes);
      VirtualModulesSpec(spec.modules, ModuleLists(remotes));
      var merged := ListModules(modules);
      kyma.spec := spec.(modules := merged);
    }

    /** Sets the owned-by and watched-by labels of the mirror, leaving the others. */
    method InsertWatcherLabels(controlPlaneKyma: Kyma, remoteKyma: Kyma)
      modifies remoteKyma`labels
      ensures remoteKyma.labels == Some(WatcherLabels(old(remoteKyma.labels), controlPlaneKyma.namespace, controlPlaneKyma.name))
    {
      if remoteKyma.labels == None {
        remoteKyma.labels := Some(map[]);
      }
      remoteKyma.labels := Some(remoteKyma.labels.value[OwnedByLabel := controlPlaneKyma.namespace + "/" + controlPlaneKyma.name]);
      remoteKyma.labels := Some(remoteKyma.labels.value[WatchedByLabel := OperatorName]);
    }
  }

  /** The name-keyed map of the modules of every remote Kyma in order, then of the
      control-plane modules `own`; a later entry with a name overrides an earlier one. */
  method CollectModules(own: seq<Module>, remotes: seq<Kyma>) returns (modules: map<string, Module>)
    ensures modules == VirtualModules(own, ModuleLists(remotes))
  {
    modules := map[];
    for i := 0 to |remotes|
      invariant modules == MergeRemotes(ModuleLists(remotes[..i]))
    {
      var ms := remotes[i].spec.modules;
      for j := 0 to |ms|
        invariant modules == InsertAll(MergeRemotes(ModuleLists(remotes[..i])), ms[..j])
      {
        assert ms[..j + 1][..j] == ms[..j];
        modules := modules[ms[j].name := ms[j]];
      }
      assert ms[..|ms|] == ms;
      assert remotes[..i + 1][..i] == remotes[..i];
    }
    assert remotes[..|remotes|] == remotes;
    ghost var lists := ModuleLists(remotes);
    for j := 0 to |own|
      invariant modules == InsertAll(MergeRemotes(lists), own[..j])
    {
      assert own[..j + 1][..j] == own[..j];
      modules := modules[own[j].name := own[j]];
    }
    assert own[..|own|] == own;
  }

  /** The values of a name-keyed module map as a list, in some order. */
  method ListModules(modules: map<string, Module>) returns (merged: seq<Module>)
    requires KeyedByName(modules)
    ensures ListsExactly(merged, modules)
  {
    merged := [];
    var rest := modules.Keys;
    while rest != {}
      invariant rest <= modules.Keys
      invariant ListsExactly(merged, modules - rest)
      decreases rest
    {
      var n :| n in rest;
      ListsExactlyStep(merged, modules, rest, n);
      merged := merged + [modules[n]];
      rest := rest - {n};
    }
    assert modules - {} == modules;
  }

  /** Re-reads the mirror of `kyma`, takes the Kyma finalizer off it and writes it. */
  method RemoveFinalizerFromRemoteKyma(sync: KymaSynchronizationContext, kyma: Kyma) returns (err: Option<Error>)
    modifies sync.runtime`kymas, sync.runtime`log
    ensures var key := RemoteObjectKey(kyma.Value());
            var got := old(sync.runtime.KymaLookup(key));
      got.Err? ==>
        && err == Some(got.error)
        && sync.runtime.kymas == old(sync.runtime.kymas)
        && sync.runtime.log == old(sync.runtime.log) + [Call.GetKyma(key)]
    ensures var key := RemoteObjectKey(kyma.Value());
            var got := old(sync.runtime.KymaLookup(key));
      got.Ok? ==>
        var sent := got.value.(finalizers := RemoveFinalizer(got.value.finalizers, KymaFinalizer));
        && err == old(sync.runtime.Rejects(UpdateVerb))
        && sync.runtime.kymas == (if err.None? then Written(old(sync.runtime.kymas), key, SpecWritten(got.value, sent))
                                  else old(sync.runtime.kymas))
        && sync.runtime.log == old(sync.runtime.log) + [Call.GetKyma(key), Call.UpdateKyma(key)]
  {
    var remote;
    remote, err := sync.GetRemotelySyncedKyma(kyma);
    if err.Some? {
      return;
    }
    remote.finalizers := RemoveFinalizer(remote.finalizers, KymaFinalizer);
    err := sync.runtime.Update(remote.Value());
  }

  /** Re-reads the mirror of `kyma` and deletes it. */
  method DeleteRemotelySyncedKyma(sync: KymaSynchronizationContext, kyma: Kyma) returns (err: Option<Error>)
    modifies sync.runtime`kymas, sync.runtime`log
    ensures var key := RemoteObjectKey(kyma.Value());
            var got := old(sync.runtime.KymaLookup(key));
      got.Err? ==>
        && err == Some(got.error)
        && sync.runtime.kymas == old(sync.runtime.kymas)
        && sync.runtime.log == old(sync.runtime.log) + [Call.GetKyma(key)]
    ensures var key := RemoteObjectKey(kyma.Value());
            var got := old(sync.runtime.KymaLookup(key));
      got.Ok? ==>
        && err == old(sync.runtime.Rejects(DeleteVerb))
        && sync.runtime.kymas == (if err.None? then Deleted(old(sync.runtime.kymas), key, old(sync.runtime.clock))
                                  else old(sync.runtime.kymas))
        && sync.runtime.log == old(sync.runtime.log) + [Call.GetKyma(key), Call.DeleteKyma(key)]
  {
    var remote;
    remote, err := sync.GetRemotelySyncedKyma(kyma);
    if err.Some? {
      return;
    }
    err := sync.runtime.Delete(remote.Value());
  }
}
