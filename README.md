# Kyma synchronization context, modelled in Dafny

This project models the Kyma synchronization context of the Kyma lifecycle manager
(`pkg/remote/kyma_synchronization_context.go`). The context holds two clients. One talks
to the control-plane cluster, the other to a remote (runtime) cluster. Its job is to keep
a control-plane `Kyma` object and its mirror on the remote cluster in step:

- it applies the mirror's namespace on the remote cluster;
- it installs the Kyma CRD on the remote cluster when that cluster does not serve the kind;
- it fetches the mirror, or creates it from the control-plane desired state;
- it pushes status, watcher labels and the last-synchronization stamp to the mirror;
- it removes the mirror's finalizer or deletes the mirror;
- it merges the module lists of the mirrors and of the control-plane object by module name
  (the "virtual" Kyma).

The project has three modules:

- `Api` (`api.dfy`) holds:
  - the `v1beta1` values the context touches: modules, sync settings, spec, status and the
    stored `KymaObject`;
  - the CRD and namespace values;
  - the label, annotation and finalizer constants;
  - the `Kyma` class. This is the caller's `*v1beta1.Kyma`, whose fields the context
    changes in place.
- `Cluster` (`cluster.dfy`) is an abstract Kubernetes client, the `Client` class. It keeps:
  - a store of Kyma objects, CRDs and namespaces;
  - a table of verbs the API server currently rejects;
  - a ghost log of every request sent.

  The requests answer as follows for the stored state:
  - a read of the Kyma kind on a cluster that does not serve `v1beta1` fails with
    `NoKindMatch`;
  - a missing key gives `NotFound`;
  - a create into a namespace the cluster does not have gives `NotFound`;
  - a status update writes only the status;
  - a main-resource update keeps the server-owned status and deletion timestamp, and
    removes a deleting object once no finalizer is left;
  - a delete of an object with finalizers only marks it;
  - a server-side apply merges labels and annotations.

  Each kind of request fails on its own when the cluster rejects it. Kyma, CRD and
  namespace requests are separate kinds. A rejection is fixed for the whole operation
  being modelled, so two requests of the same kind in one operation answer alike.
- `Remote` (`remote.dfy`) is the core. It holds:
  - the remote identity rule and the mirror a first synchronization creates;
  - the CRD bootstrap decision;
  - the watcher labels and the finalizer removal;
  - the merge specification and its lemmas;
  - the `KymaSynchronizationContext` class with its methods;
  - the two module-level helpers that re-fetch the mirror.

Every method of the context is proved against a specification stated over the old state. It
names the answer each client gives, the exact sequence of requests sent to each cluster, the
new contents of the remote store and the new fields of the caller's objects. The source's
promises are then stated as lemmas about those specification functions.

Two paths of the source behave in a way that is easy to misread:

- `CreateOrUpdateCRD`: when the remote CRD read fails, the caller's CRD object stays empty
  and lists no version. The condition at line 148 then patches, so the error check at
  line 152 is dead and a remote CRD read error is never returned. `CrdDecisionTable` proves
  this for every pair of read results, and `CrdReadFailureReachable` shows the path can be
  taken from `CreateOrFetchRemoteKyma`.
- `CreateOrFetchRemoteKyma` on `NoKindMatch`: line 182 clears `err`, so the `IsNotFound`
  branch at line 185 is skipped. The caller gets back an object carrying only name and
  namespace, and no Create is sent in that call. The mirror is created by a later call,
  once the read answers `NotFound`.

## Model

| member | source | states |
|---|---|---|
| Remote.RemoteObjectKey | pkg/remote/kyma_synchronization_context.go:259-266 | the mirror keeps the control-plane name; its namespace is the sync namespace when that is non-empty, the control-plane namespace otherwise |
| Remote.RemoteObjectKeyStable | pkg/remote/kyma_synchronization_context.go:259-266 | the mirror identity depends only on name, namespace and sync namespace, and its namespace is one of the two candidates |
| Remote.MirrorOf | pkg/remote/kyma_synchronization_context.go:163-190 | the created mirror has the remote identity and the control-plane spec, with the module list emptied exactly when module copying is off; it carries nothing else |
| Remote.MirrorFetchedBack | pkg/remote/kyma_synchronization_context.go:171-204 | once the created mirror is stored and the kind is served, reading the remote identity returns that mirror, so create-or-fetch converges |
| Remote.MirrorCreatable | pkg/remote/kyma_synchronization_context.go:185-197 | on a cluster that holds the mirror's namespace and answered NotFound, creating the mirror fails only if creates are rejected |
| Remote.CrdDecisionTable | pkg/remote/kyma_synchronization_context.go:134-156 | a failed control-plane read aborts; a missing remote CRD, a remote CRD without the current version, or a failed remote read leads to an install of the control-plane CRD; a current remote CRD is left alone; a remote read error is never returned |
| Remote.CrdBootstrapIdempotent | pkg/remote/kyma_synchronization_context.go:144-156 | after an accepted install of a control-plane CRD with the current version, reading the remote table left behind makes the next bootstrap up to date, so it patches nothing |
| Remote.CrdReadFailureReachable | pkg/remote/kyma_synchronization_context.go:144-149 | the remote CRD read can fail while the Kyma read answers NoKindMatch, and the bootstrap then installs the control-plane CRD |
| Remote.CrdPlan | pkg/remote/kyma_synchronization_context.go:140-154 | the bootstrap aborts exactly when the control-plane read failed, with that error; an install always installs the control-plane CRD; it is up to date only when the remote read succeeded with the current version |
| Remote.CrdCalls | pkg/remote/kyma_synchronization_context.go:144-149 | no remote request after a failed control-plane read; otherwise the remote read comes first; a patch is sent only on install, and then last, with the control-plane CRD |
| Remote.CrdError | pkg/remote/kyma_synchronization_context.go:140-156 | the bootstrap succeeds exactly when it is up to date or its patch was accepted; on install its error is the patch's |
| Remote.CrdsAfter | pkg/remote/kyma_synchronization_context.go:149 | an accepted install stores the control-plane CRD under the name; otherwise the table is unchanged; other CRDs are never touched |
| Api.CrdName | pkg/remote/kyma_synchronization_context.go:137 | the CRD name starts with the plural and has the group suffix's length after it |
| Api.CrdNameInjective | pkg/remote/kyma_synchronization_context.go:137 | different plurals give different CRD names |
| Api.ContainsLatestVersion | pkg/remote/kyma_synchronization_context.go:148 | a CRD contains the version only when one of its listed versions is that version |
| Remote.NamespaceApplyIdempotent | pkg/remote/kyma_synchronization_context.go:117-125 | applying the same namespace labels a second time leaves the labels, and the managed-by label, as the first apply left them |
| Remote.WatcherLabels | pkg/remote/kyma_synchronization_context.go:270-279 | owned-by is `<namespace>/<name>` of the control-plane Kyma, watched-by is the operator name, the key set is the old keys plus these two, and every other label keeps its value |
| Remote.RemoveFinalizer | pkg/remote/kyma_synchronization_context.go:77 | the finalizer is no longer present, every other finalizer stays as often as before, the list never grows, and a list without the finalizer is unchanged |
| Remote.InsertAllSpec | pkg/remote/kyma_synchronization_context.go:245-251 | filing a module list by name adds exactly its names; each name maps to the last entry that has it; other entries are kept |
| Remote.InsertAll | pkg/remote/kyma_synchronization_context.go:245-251 | filing a list by name never drops a name already filed, and the list's last entry is filed under its name |
| Remote.MergeRemotes | pkg/remote/kyma_synchronization_context.go:244-248 | each further remote list keeps every name merged before it |
| Remote.VirtualModules | pkg/remote/kyma_synchronization_context.go:242-251 | every merged remote name stays, and the control plane's last entry is filed under its name |
| Remote.MergeRemotesSpec | pkg/remote/kyma_synchronization_context.go:244-248 | the merged remote modules hold exactly the names of all remote lists, each mapped to its last occurrence in the last remote list that has it |
| Remote.VirtualModulesSpec | pkg/remote/kyma_synchronization_context.go:242-256 | one entry per name from the control-plane list or any remote list, each filed under its own name; a control-plane entry wins over every remote; among remotes the later one wins |
| Remote.VirtualModulesIdempotent | pkg/remote/kyma_synchronization_context.go:235-257 | merging again with the merged list as the control-plane list and the same remotes gives the same module set |
| Remote.CollectModules | pkg/remote/kyma_synchronization_context.go:242-251 | the nested loops over the remotes' modules and then the control-plane modules build exactly the virtual module map |
| Remote.ListModules | pkg/remote/kyma_synchronization_context.go:253-256 | the rebuilt list holds every entry of the map exactly once and nothing else |
| Remote.KymaSynchronizationContext.constructor | pkg/remote/kyma_synchronization_context.go:31-34 | the context holds the given control-plane and runtime clients |
| Remote.KymaSynchronizationContext.GetRemotelySyncedKyma | pkg/remote/kyma_synchronization_context.go:56-65 | one read of the remote identity; on success a fresh object holding what was read and no error; on failure no object and that error |
| Remote.KymaSynchronizationContext.EnsureRemoteNamespaceExists | pkg/remote/kyma_synchronization_context.go:98-128 | exactly one apply on the runtime cluster, forced, with field manager `kyma-sync-context`, of the namespace named by the remote identity rule, carrying the managed-by label and the last-sync stamp; an apply error is returned wrapped, never dropped; on success the namespace store holds the applied namespace, so the mirror's namespace exists |
| Remote.KymaSynchronizationContext.CreateOrUpdateCRD | pkg/remote/kyma_synchronization_context.go:130-157 | reads `<plural>.<group>` on the control plane first; when that fails it returns the error and sends nothing to the remote cluster; otherwise it reads the remote CRD and patches it with the control-plane CRD exactly when the decision table says install; the error is the patch's; afterwards the remote CRD lists the current version when it succeeded and the control-plane CRD did |
| Remote.KymaSynchronizationContext.CreateOrFetchRemoteKyma | pkg/remote/kyma_synchronization_context.go:159-205 | a fetched mirror is returned unchanged with no error and no other request; any error other than NotFound or NoKindMatch is returned with no Create; on NotFound exactly one Create of the mirror (spec copied, modules emptied under no-module-copy) and the create's answer returned; on NoKindMatch exactly one CRD bootstrap for the Kyma plural, its error returned, no Create, and on success the key-only object with no error |
| Remote.KymaSynchronizationContext.SynchronizeRemoteKyma | pkg/remote/kyma_synchronization_context.go:207-231 | the control-plane status is copied and the status update is always sent first; its error is returned; a deleting mirror then stops with no other change; otherwise the watcher labels and the last-sync stamp are set and exactly one Update is sent, whose error is returned |
| Remote.KymaSynchronizationContext.ReplaceWithVirtualKyma | pkg/remote/kyma_synchronization_context.go:235-257 | only the module list of the Kyma changes, and it then lists exactly the virtual module set, one entry per name |
| Remote.KymaSynchronizationContext.InsertWatcherLabels | pkg/remote/kyma_synchronization_context.go:270-279 | the mirror's labels become non-nil and equal the watcher labels over the old ones |
| Remote.RemoveFinalizerFromRemoteKyma | pkg/remote/kyma_synchronization_context.go:67-80 | re-reads the mirror; a read error is returned with nothing written; otherwise exactly one Update of the mirror as read, without the Kyma finalizer, and its error returned |
| Remote.DeleteRemotelySyncedKyma | pkg/remote/kyma_synchronization_context.go:82-92 | re-reads the mirror; a read error is returned with nothing deleted; otherwise exactly one Delete of the mirror, and its error returned |
| Api.KeyOnly | pkg/remote/kyma_synchronization_context.go:163-169 | a freshly allocated Kyma with only name and namespace set has exactly that identity |
| Api.Kyma.SetLastSync | pkg/remote/kyma_synchronization_context.go:225 | the last-synchronization annotation is set to the given time, the others are kept |
| Cluster.Client.KymaLookup | pkg/remote/kyma_synchronization_context.go:171 | the answer to the remote Kyma read: the rejection, NoKindMatch when the kind is not served, NotFound when absent, otherwise the stored object under the requested identity |
| Cluster.Client.CrdLookup | pkg/remote/kyma_synchronization_context.go:134-146 | the answer to a CRD read: the rejection, NotFound when absent, otherwise the stored CRD under the requested name |
| Cluster.Client.WriteOutcome | pkg/remote/kyma_synchronization_context.go:214 | a write that succeeds finds its object stored |
| Cluster.Client.CreateOutcome | pkg/remote/kyma_synchronization_context.go:192 | a create succeeds exactly when creates are not rejected, the kind is served, the target namespace exists and no object has the key |
| Cluster.StatusWritten | pkg/remote/kyma_synchronization_context.go:214 | a status update takes the status from the request and keeps every other stored field |
| Cluster.SpecWritten | pkg/remote/kyma_synchronization_context.go:225 | a main-resource update takes everything from the request except the server-owned status and deletion timestamp |
| Cluster.Written | pkg/remote/kyma_synchronization_context.go:79 | an updated object that is deleting and has no finalizer left is removed; otherwise it is stored; other keys are untouched |
| Cluster.Deleted | pkg/remote/kyma_synchronization_context.go:91 | a delete removes an object without finalizers and only marks one with finalizers as deleting; other keys are untouched |
| Cluster.Applied | pkg/remote/kyma_synchronization_context.go:121-123 | a server-side apply sets the applied labels and annotations and keeps every other label of the existing namespace |
| Cluster.Client.Get | pkg/remote/kyma_synchronization_context.go:171 | a read logs one request and answers with the lookup for the key |
| Cluster.Client.Create | pkg/remote/kyma_synchronization_context.go:192 | a create logs one request, stores the object when it succeeds and otherwise leaves the store alone |
| Cluster.Client.Update | pkg/remote/kyma_synchronization_context.go:225 | an update logs one request and, when it succeeds, writes the object as the server does |
| Cluster.Client.UpdateStatus | pkg/remote/kyma_synchronization_context.go:214 | a status update logs one request and, when it succeeds, writes only the status |
| Cluster.Client.Delete | pkg/remote/kyma_synchronization_context.go:91 | a delete logs one request and, when it succeeds, deletes or marks the object |
| Cluster.Client.GetCrdNamed | pkg/remote/kyma_synchronization_context.go:134-146 | a CRD read logs one request and answers with the lookup for the name |
| Cluster.Client.PatchCrdFrom | pkg/remote/kyma_synchronization_context.go:149 | a CRD patch logs one request and, when the server accepts it, installs the control-plane CRD under its name |
| Cluster.Client.ApplyNamespacePatch | pkg/remote/kyma_synchronization_context.go:121-123 | a namespace apply logs one request with its options and, when accepted, stores the merged namespace |

## Left out

- Event recording through the context's recorder is left out. The events never affect control flow.
- The JSON encoding of the namespace (lines 112-115) is left out. It cannot fail for that value.
- The current time (`time.Now().Format(time.RFC3339)`) and its format are not modelled. The timestamp is an opaque `now` parameter, and the server's deletion clock is a field of the client.
- `InitializeKymaSynchronizationContext`, the `LocalClient` global and client resolution through `NewClientLookup`/`ClientCache` are not part of this model. The context is constructed from two given clients, which are distinct objects with independent stores. A local strategy where both clients reach the same API server is not modelled.
- `SyncContextFromContext` is not modelled. The context is passed explicitly to `RemoveFinalizerFromRemoteKyma` and `DeleteRemotelySyncedKyma`.
- Cancellation and deadlines carried by `context.Context` are left out.
- `PatchCRD` and `ContainsLatestVersion` live outside this file. They are modelled as a CRD write keyed by name and as "the CRD lists the version".
- The `v1beta1` label, annotation and finalizer keys are defined outside this file. Their values here follow the operator's `operator.kyma-project.io/` prefix. The proofs only need the owned-by and watched-by keys to differ.
- `controllerutil.RemoveFinalizer` and `Kyma.SetLastSync` are defined outside this file. They are modelled by what they are documented to do: remove every occurrence of the finalizer, and set the annotation.
- Resource versions and optimistic-concurrency conflicts are not modelled.
- The server's write-back of the stored object into the caller's object after Create and Update is not modelled.
- Remote.KymaSynchronizationContext.SynchronizeRemoteKyma: the status update at line 214 does not write the server's answer back into `remoteKyma`. So the deletion test at line 219 and the Update at line 225 act on the caller's copy with the new status, not on the object the server returned.
- Server-side apply field ownership is not modelled; the context always forces.
- Remote.KymaSynchronizationContext.ReplaceWithVirtualKyma: Go map iteration order is not modelled. The rebuilt list is specified as exactly the virtual module set, one entry per name, in some order.
- The generated `ModuleTemplate` REST client in `operator/pkg/client/...` is not part of this model. It only forwards requests.
