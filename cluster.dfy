/** An abstract Kubernetes API client bound to one cluster: the objects the cluster
    stores, the verbs it currently rejects, and a log of the calls made through it.
    Each operation returns what the API server would answer for the stored state. */
module Cluster {
  import opened Api

  /** The kinds of request a cluster can reject. Requests on Kyma objects, on CRDs and on
      namespaces are told apart, so that one kind can fail while another succeeds. */
  datatype Verb =
    | GetVerb | CreateVerb | UpdateVerb | UpdateStatusVerb | DeleteVerb
    | GetCrdVerb | PatchCrdVerb | ApplyNamespaceVerb

  /** One request sent to the cluster. */
  datatype Call =
    | GetKyma(key: ObjectKey)
    | CreateKyma(key: ObjectKey)
    | UpdateKyma(key: ObjectKey)
    | UpdateKymaStatus(key: ObjectKey)
    | DeleteKyma(key: ObjectKey)
    | GetCrd(name: string)
    | PatchCrd(name: string)
    | ApplyNamespace(namespace: Namespace, options: PatchOptions)

  /** The stored Kyma after a status-subresource update: only the status is taken from
      the request. */
  function StatusWritten(stored: KymaObject, sent: KymaObject): (w: KymaObject)
    ensures w.status == sent.status
    ensures w.(status := stored.status) == stored
  {
    stored.(status := sent.status)
  }

  /** The stored Kyma after a main-resource update: everything but the status and the
      deletion timestamp, which the server owns, is taken from the request. */
  function SpecWritten(stored: KymaObject, sent: KymaObject): (w: KymaObject)
    ensures w.status == stored.status && w.deletionTimestamp == stored.deletionTimestamp
    ensures w.(status := sent.status, deletionTimestamp := sent.deletionTimestamp) == sent
  {
    sent.(status := stored.status, deletionTimestamp := stored.deletionTimestamp)
  }

  /** The store after an update wrote `w` at `key`: an object that is being deleted and
      has no finalizer left is removed. */
  function Written(kymas: map<ObjectKey, KymaObject>, key: ObjectKey, w: KymaObject): (r: map<ObjectKey, KymaObject>)
    ensures key in r <==> !(w.deletionTimestamp.Some? && w.finalizers == [])
    ensures key in r ==> r[key] == w
    ensures forall k | k != key :: (k in r <==> k in kymas) && (k in r ==> r[k] == kymas[k])
  {
    if w.deletionTimestamp.Some? && w.finalizers == [] then kymas - {key} else kymas[key := w]
  }

  /** The store after a delete request: an object without finalizers goes away, one
      with finalizers is only marked as being deleted at time `clock`. */
  function Deleted(kymas: map<ObjectKey, KymaObject>, key: ObjectKey, clock: string): (r: map<ObjectKey, KymaObject>)
    requires key in kymas
    ensures kymas[key].finalizers == [] ==> key !in r
    ensures kymas[key].finalizers != [] ==>
      (key in r && r[key].deletionTimestamp.Some?
       && r[key] == kymas[key].(deletionTimestamp := r[key].deletionTimestamp))
    ensures forall k | k != key :: (k in r <==> k in kymas) && (k in r ==> r[k] == kymas[k])
  {
    var cur := kymas[key];
    if cur.finalizers == [] then kymas - {key}
    else if cur.deletionTimestamp.Some? then kymas
    else kymas[key := cur.(deletionTimestamp := Some(clock))]
  }

  /** Server-side apply of a namespace: the applied labels and annotations are set,
      every other field the namespace already has is kept. */
  function Applied(existing: Option<Namespace>, patch: Namespace): (ns: Namespace)
    ensures ns.name == patch.name
    ensures forall k | k in patch.labels :: k in ns.labels && ns.labels[k] == patch.labels[k]
    ensures existing.Some? ==> forall k | k in existing.value.labels && k !in patch.labels ::
      k in ns.labels && ns.labels[k] == existing.value.labels[k]
    ensures forall k | k in ns.labels :: k in patch.labels || (existing.Some? && k in existing.value.labels)
    ensures forall k | k in patch.annotations :: k in ns.annotations && ns.annotations[k] == patch.annotations[k]
  {
    var base := if existing.Some? then existing.value else Namespace(patch.name, map[], map[]);
    Namespace(patch.name, base.labels + patch.labels, base.annotations + patch.annotations)
  }

  class Client {
    var kymas: map<ObjectKey, KymaObject>
    var crds: map<string, Crd>
    var namespaces: map<string, Namespace>
    /** The verbs the API server currently rejects, with the reason it gives. */
    var failing: map<Verb, string>
    /** The server's clock, as the text of a timestamp. */
    var clock: string
    ghost var log: seq<Call>

    constructor (kymas: map<ObjectKey, KymaObject>, crds: map<string, Crd>, failing: map<Verb, string>)
      ensures this.kymas == kymas && this.crds == crds && this.failing == failing
      ensures namespaces == map[] && log == []
    {
      this.kymas, this.crds, this.failing := kymas, crds, failing;
      namespaces, clock := map[], "";
      log := [];
    }

    function Rejects(v: Verb): (e: Option<Error>)
      reads this`failing
      ensures e.Some? <==> v in failing
    {
      if v in failing then Some(Unavailable(failing[v])) else None
    }

    /** The cluster serves the Kyma kind in the version the operator uses. */
    predicate ServesKyma()
      reads this`crds
    {
      KymaCrdName in crds && ContainsLatestVersion(crds[KymaCrdName], Version)
    }

    /** The answer to a read of the Kyma at `key`; the object read carries the identity
        it was read under. */
    function KymaLookup(key: ObjectKey): (r: Result<KymaObject>)
      reads this`failing, this`crds, this`kymas
      ensures r.Ok? ==> KeyOf(r.value) == key
    {
      if Rejects(GetVerb).Some? then Err(Rejects(GetVerb).value)
      else if !ServesKyma() then Err(NoKindMatch)
      else if key !in kymas then Err(NotFound)
      else Ok(kymas[key].(namespace := key.namespace, name := key.name))
    }

    /** The answer to a read of the CRD named `name`. */
    function CrdLookup(name: string): (r: Result<Crd>)
      reads this`failing, this`crds
      ensures r.Ok? ==> r.value.name == name
    {
      if Rejects(GetCrdVerb).Some? then Err(Rejects(GetCrdVerb).value)
      else if name !in crds then Err(NotFound)
      else Ok(crds[name].(name := name))
    }

    /** The answer to a create of `o`; a create into a namespace the cluster does not
        have is refused as not found. */
    function CreateOutcome(o: KymaObject): (e: Option<Error>)
      reads this`failing, this`crds, this`kymas, this`namespaces
      ensures e.None? <==> CreateVerb !in failing && ServesKyma() && o.namespace in namespaces && KeyOf(o) !in kymas
    {
      if Rejects(CreateVerb).Some? then Rejects(CreateVerb)
      else if !ServesKyma() then Some(NoKindMatch)
      else if o.namespace !in namespaces then Some(NotFound)
      else if KeyOf(o) in kymas then Some(AlreadyExists)
      else None
    }

    /** The answer to an update, status update or delete of the object at `key`. */
    function WriteOutcome(v: Verb, key: ObjectKey): (e: Option<Error>)
      reads this`failing, this`crds, this`kymas
      ensures e.None? ==> key in kymas
    {
      if Rejects(v).Some? then Rejects(v)
      else if !ServesKyma() then Some(NoKindMatch)
      else if key !in kymas then Some(NotFound)
      else None
    }

    method Get(key: ObjectKey) returns (r: Result<KymaObject>)
      modifies this`log
      ensures r == old(KymaLookup(key))
      ensures log == old(log) + [Call.GetKyma(key)]
    {
      log := log + [Call.GetKyma(key)];
      r := KymaLookup(key);
    }

    method Create(o: KymaObject) returns (err: Option<Error>)
      modifies this`kymas, this`log
      ensures err == old(CreateOutcome(o))
      ensures kymas == if err.None? then old(kymas)[KeyOf(o) := o] else old(kymas)
      ensures log == old(log) + [Call.CreateKyma(KeyOf(o))]
    {
      log := log + [Call.CreateKyma(KeyOf(o))];
      err := CreateOutcome(o);
      if err.None? {
        kymas := kymas[KeyOf(o) := o];
      }
    }

    method Update(o: KymaObject) returns (err: Option<Error>)
      modifies this`kymas, this`log
      ensures err == old(WriteOutcome(UpdateVerb, KeyOf(o)))
      ensures kymas == if err.None? then Written(old(kymas), KeyOf(o), SpecWritten(old(kymas)[KeyOf(o)], o))
                       else old(kymas)
      ensures log == old(log) + [Call.UpdateKyma(KeyOf(o))]
    {
      log := log + [Call.UpdateKyma(KeyOf(o))];
      err := WriteOutcome(UpdateVerb, KeyOf(o));
      if err.None? {
        kymas := Written(kymas, KeyOf(o), SpecWritten(kymas[KeyOf(o)], o));
      }
    }

    method UpdateStatus(o: KymaObject) returns (err: Option<Error>)
      modifies this`kymas, this`log
      ensures err == old(WriteOutcome(UpdateStatusVerb, KeyOf(o)))
      ensures kymas == if err.None? then old(kymas)[KeyOf(o) := StatusWritten(old(kymas)[KeyOf(o)], o)]
                       else old(kymas)
      ensures log == old(log) + [Call.UpdateKymaStatus(KeyOf(o))]
    {
      log := log + [Call.UpdateKymaStatus(KeyOf(o))];
      err := WriteOutcome(UpdateStatusVerb, KeyOf(o));
      if err.None? {
        kymas := kymas[KeyOf(o) := StatusWritten(kymas[KeyOf(o)], o)];
      }
    }

    method Delete(o: KymaObject) returns (err: Option<Error>)
      modifies this`kymas, this`log
      ensures err == old(WriteOutcome(DeleteVerb, KeyOf(o)))
      ensures kymas == if err.None? then Deleted(old(kymas), KeyOf(o), clock) else old(kymas)
      ensures log == old(log) + [Call.DeleteKyma(KeyOf(o))]
    {
      log := log + [Call.DeleteKyma(KeyOf(o))];
      err := WriteOutcome(DeleteVerb, KeyOf(o));
      if err.None? {
        kymas := Deleted(kymas, KeyOf(o), clock);
      }
    }

    method GetCrdNamed(name: string) returns (r: Result<Crd>)
      modifies this`log
      ensures r == old(CrdLookup(name))
      ensures log == old(log) + [Call.GetCrd(name)]
    {
      log := log + [Call.GetCrd(name)];
      r := CrdLookup(name);
    }

    /** Creates or overwrites the CRD named like `crd`. */
    method PatchCrdFrom(crd: Crd) returns (err: Option<Error>)
      modifies this`crds, this`log
      ensures err == old(Rejects(PatchCrdVerb))
      ensures crds == if err.None? then old(crds)[crd.name := crd] else old(crds)
      ensures log == old(log) + [Call.PatchCrd(crd.name)]
    {
      log := log + [Call.PatchCrd(crd.name)];
      err := Rejects(PatchCrdVerb);
      if err.None? {
        crds := crds[crd.name := crd];
      }
    }

    /** A server-side apply patch of a namespace. */
    method ApplyNamespacePatch(ns: Namespace, options: PatchOptions) returns (err: Option<Error>)
      modifies this`namespaces, this`log
      ensures err == old(Rejects(ApplyNamespaceVerb))
      ensures namespaces == if err.None?
        then old(namespaces)[ns.name := Applied(if ns.name in old(namespaces) then Some(old(namespaces)[ns.name]) else None, ns)]
        else old(namespaces)
      ensures log == old(log) + [Call.ApplyNamespace(ns, options)]
    {
      log := log + [Call.ApplyNamespace(ns, options)];
      err := Rejects(ApplyNamespaceVerb);
      if err.None? {
        var existing := if ns.name in namespaces then Some(namespaces[ns.name]) else None;
        namespaces := namespaces[ns.name := Applied(existing, ns)];
      }
    }
  }
}
