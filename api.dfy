/** The parts of the Kyma custom resource (API group operator.kyma-project.io, version
    v1beta1) and of the Kubernetes objects around it that the synchronization context
    reads or writes. Fields the synchronization context never inspects are kept as
    opaque strings. */
module Api {

  datatype Option<+T> = None | Some(value: T)

  datatype Result<+T> = Ok(value: T) | Err(error: Error)

  /** The error classes the synchronization context distinguishes. `NoKindMatch` is what
      the client's REST mapper reports when the cluster does not serve the kind at all. */
  datatype Error =
    | NotFound
    | NoKindMatch
    | AlreadyExists
    | Unavailable(reason: string)
    | Wrapped(message: string, cause: Error)

  const Group: string := "operator.kyma-project.io"
  const Version: string := "v1beta1"
  const KymaPlural: string := "kymas"

  const OperatorName: string := "lifecycle-manager"
  const ManagedByLabel: string := "operator.kyma-project.io/managed-by"
  const OwnedByLabel: string := "operator.kyma-project.io/owned-by"
  const WatchedByLabel: string := "operator.kyma-project.io/watched-by"
  const LastSyncAnnotation: string := "operator.kyma-project.io/last-synchronized"
  const KymaFinalizer: string := "operator.kyma-project.io/Kyma"

  /** A module entry; `name` is its identity for merging, the rest is payload. */
  datatype Module = Module(name: string, controllerName: string, channel: string)

  /** The sync configuration of a Kyma: an optional target namespace on the remote
      cluster and the flag that suppresses copying the module list. */
  datatype Sync = Sync(enabled: bool, strategy: string, namespace: string, noModuleCopy: bool)

  datatype KymaSpec = KymaSpec(channel: string, modules: seq<Module>, sync: Sync)

  /** Operator-reported state, opaque to the synchronization context. */
  datatype KymaStatus = KymaStatus(state: string)

  datatype ObjectKey = ObjectKey(namespace: string, name: string)

  /** A Kyma object as the API server stores it. `labels` distinguishes a nil label map
      from an empty one; `deletionTimestamp` is present once deletion was requested. */
  datatype KymaObject = KymaObject(
    name: string,
    namespace: string,
    spec: KymaSpec,
    status: KymaStatus,
    labels: Option<map<string, string>>,
    annotations: map<string, string>,
    deletionTimestamp: Option<string>,
    finalizers: seq<string>)

  const EmptySpec: KymaSpec := KymaSpec("", [], Sync(false, "", "", false))
  const EmptyStatus: KymaStatus := KymaStatus("")

  /** The identity of a stored object (controller-runtime's ObjectKeyFromObject). */
  function KeyOf(o: KymaObject): ObjectKey {
    ObjectKey(o.namespace, o.name)
  }

  /** A Kyma that carries nothing but an identity, as a freshly allocated object whose
      name and namespace were set. */
  function KeyOnly(key: ObjectKey): (o: KymaObject)
    ensures KeyOf(o) == key
  {
    KymaObject(key.name, key.namespace, EmptySpec, EmptyStatus, None, map[], None, [])
  }

  /** A custom resource definition: its name `<plural>.<group>` and the versions it lists. */
  datatype Crd = Crd(name: string, versions: seq<string>)

  /** The zero CRD a failed read leaves behind in the caller's object. */
  const EmptyCrd: Crd := Crd("", [])

  function CrdName(plural: string): (name: string)
    ensures |name| == |plural| + 1 + |Group| && name[..|plural|] == plural
  {
    plural + "." + Group
  }

  /** Different plurals name different CRDs. */
  lemma CrdNameInjective(a: string, b: string)
    requires CrdName(a) == CrdName(b)
    ensures a == b
  {
  }

  const KymaCrdName: string := CrdName(KymaPlural)

  /** Whether a CRD lists the given version. */
  predicate ContainsLatestVersion(crd: Crd, version: string)
    ensures ContainsLatestVersion(crd, version) ==> exists i | 0 <= i < |crd.versions| :: crd.versions[i] == version
  {
    version in crd.versions
  }

  datatype Namespace = Namespace(name: string, labels: map<string, string>, annotations: map<string, string>)

  /** The options of an apply patch: whether ownership of conflicting fields is forced,
      and the field manager the applier declares. */
  datatype PatchOptions = PatchOptions(force: bool, fieldManager: string)

  /** A control-plane or remote `*v1beta1.Kyma` held by a caller. The client writes into
      it and the synchronization context changes its fields in place. */
  class Kyma {
    var name: string
    var namespace: string
    var spec: KymaSpec
    var status: KymaStatus
    var labels: Option<map<string, string>>
    var annotations: map<string, string>
    var deletionTimestamp: Option<string>
    var finalizers: seq<string>

    /** The object's current contents as a value. */
    function Value(): KymaObject
      reads this
    {
      KymaObject(name, namespace, spec, status, labels, annotations, deletionTimestamp, finalizers)
    }

    constructor (o: KymaObject)
      ensures Value() == o
    {
      name, namespace, spec, status := o.name, o.namespace, o.spec, o.status;
      labels, annotations, deletionTimestamp, finalizers := o.labels, o.annotations, o.deletionTimestamp, o.finalizers;
    }

    /** Stamps the last-synchronization annotation with the given time. */
    method SetLastSync(now: string)
      modifies this`annotations
      ensures annotations == old(annotations)[LastSyncAnnotation := now]
    {
      annotations := annotations[LastSyncAnnotation := now];
    }
  }
}
