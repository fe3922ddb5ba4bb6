/** Resolution of a ClusterSummary's template resource references: each
    reference names an object in the management cluster whose namespace may be
    left empty (it then defaults to the cluster's namespace) and whose name is
    a template rendered against the cluster. The referenced objects are fetched
    and collected into a map keyed by each reference's identifier. Rendering
    and the cluster client are collaborators whose code is not modelled; they
    enter as the functions of a `ManagementCluster`. */
module TemplateResources {
  import opened Wrappers

  datatype GroupVersionKind = GroupVersionKind(group: string, version: string, kind: string)

  /** The fields of a reference to an object that resolution reads and rewrites. */
  datatype ObjectReference = ObjectReference(gvk: GroupVersionKind, namespace: string, name: string)

  datatype TemplateResourceRef = TemplateResourceRef(resource: ObjectReference, identifier: string)

  datatype ClusterType = Capi | Sveltos

  /** The part of a ClusterSummary's spec that resolution reads. A Go nil
      slice of references is `None`; an empty one is `Some([])`. */
  datatype ClusterSummarySpec = ClusterSummarySpec(
    clusterNamespace: string,
    clusterName: string,
    clusterType: ClusterType,
    templateResourceRefs: Option<seq<TemplateResourceRef>>)

  /** A fetched object; its content is opaque to resolution. */
  datatype Unstructured = Unstructured(content: map<string, string>)

  /** What a Get on the dynamic client reports. */
  datatype GetOutcome = Found(obj: Unstructured) | NotFound | GetFailed(error: string)

  /** Whether a dynamic client for a kind and namespace could be built. */
  datatype ClientOutcome = ClientReady | ClientFailed(error: string)

  /** The collaborators: the template renderer for names, the construction of
      a dynamic client for a kind and namespace, and the Get of an object by
      kind, namespace and name. */
  datatype ManagementCluster = ManagementCluster(
    renderName: (ClusterSummarySpec, string) -> Result<string>,
    dynamicClient: (GroupVersionKind, string) -> ClientOutcome,
    get: (GroupVersionKind, string, string) -> GetOutcome)

  /** getTemplateResourceNamespace: the reference's own namespace, or the
      cluster's namespace when the reference leaves it empty. */
  function TemplateResourceNamespace(cs: ClusterSummarySpec, ref: TemplateResourceRef): (ns: string)
    ensures ref.resource.namespace != "" ==> ns == ref.resource.namespace
    ensures ref.resource.namespace == "" ==> ns == cs.clusterNamespace
    ensures ns == "" <==> ref.resource.namespace == "" && cs.clusterNamespace == ""
  {
    if ref.resource.namespace == "" then cs.clusterNamespace else ref.resource.namespace
  }

  /** The per-iteration copy of a reference, with its namespace defaulted and
      its name rendered; fails when rendering fails. */
  function Resolve(cs: ClusterSummarySpec, mc: ManagementCluster, ref: TemplateResourceRef): (r: Result<ObjectReference>)
    ensures r.Failure? <==> mc.renderName(cs, ref.resource.name).Failure?
    ensures r.Failure? ==> r.error == mc.renderName(cs, ref.resource.name).error
    ensures r.Success? ==>
      && r.value.gvk == ref.resource.gvk
      && r.value.namespace == TemplateResourceNamespace(cs, ref)
      && mc.renderName(cs, ref.resource.name) == Success(r.value.name)
  {
    var ns := TemplateResourceNamespace(cs, ref);
    match mc.renderName(cs, ref.resource.name)
    case Failure(e) => Failure(e)
    case Success(name) => Success(ObjectReference(ref.resource.gvk, ns, name))
  }

  /** What one reference contributes: abort with an error, skip, or add an object. */
  datatype RefOutcome = Abort(error: string) | Skip | Add(obj: Unstructured)

  /** The outcome of one reference: rendering, client construction and any Get
      error other than not-found abort; not-found skips; a found object is added. */
  function Fetch(cs: ClusterSummarySpec, mc: ManagementCluster, ref: TemplateResourceRef): RefOutcome {
    match Resolve(cs, mc, ref)
    case Failure(e) => Abort(e)
    case Success(o) =>
      match mc.dynamicClient(o.gvk, o.namespace)
      case ClientFailed(e) => Abort(e)
      case ClientReady =>
        match mc.get(o.gvk, o.namespace, o.name)
        case Found(u) => Add(u)
        case NotFound => Skip
        case GetFailed(e) => Abort(e)
  }

  /** The Get a reference issues, if it gets that far. */
  function Issued(cs: ClusterSummarySpec, mc: ManagementCluster, ref: TemplateResourceRef): seq<ObjectReference> {
    match Resolve(cs, mc, ref)
    case Failure(_) => []
    case Success(o) => if mc.dynamicClient(o.gvk, o.namespace).ClientFailed? then [] else [o]
  }

  /** One reference processed after the ones before it: an earlier abort
      stands, an abort of this reference fails, a skip keeps the map, and a
      found object is stored under the reference's identifier. */
  function Absorb(cs: ClusterSummarySpec, mc: ManagementCluster, acc: Result<map<string, Unstructured>>, ref: TemplateResourceRef): Result<map<string, Unstructured>> {
    match acc
    case Failure(e) => Failure(e)
    case Success(m) =>
      match Fetch(cs, mc, ref)
      case Abort(e) => Failure(e)
      case Skip => Success(m)
      case Add(u) => Success(m[ref.identifier := u])
  }

  /** The references processed in order: the first abort is the result, with
      no map; otherwise each found object is stored under its identifier, a
      later reference overwriting an earlier one with the same identifier. */
  function Collect(cs: ClusterSummarySpec, mc: ManagementCluster, refs: seq<TemplateResourceRef>): Result<map<string, Unstructured>>
    decreases |refs|
  {
    if refs == [] then Success(map[])
    else Absorb(cs, mc, Collect(cs, mc, refs[..|refs| - 1]), refs[|refs| - 1])
  }

  /** The Gets issued while processing the references, in order. */
  function Requests(cs: ClusterSummarySpec, mc: ManagementCluster, refs: seq<TemplateResourceRef>): seq<ObjectReference>
    decreases |refs|
  {
    if refs == [] then []
    else
      var init := refs[..|refs| - 1];
      if Collect(cs, mc, init).Failure? then Requests(cs, mc, init)
      else Requests(cs, mc, init) + Issued(cs, mc, refs[|refs| - 1])
  }

  /** Processing one more reference. */
  lemma CollectSnoc(cs: ClusterSummarySpec, mc: ManagementCluster, refs: seq<TemplateResourceRef>, ref: TemplateResourceRef)
    ensures Collect(cs, mc, refs + [ref]) == Absorb(cs, mc, Collect(cs, mc, refs), ref)
    ensures Requests(cs, mc, refs + [ref]) ==
      Requests(cs, mc, refs) + if Collect(cs, mc, refs).Failure? then [] else Issued(cs, mc, ref)
  {
    assert (refs + [ref])[..|refs|] == refs;
  }

  /** collectTemplateResourceRefs, as a value: nil references give a nil map. */
  function Collected(cs: ClusterSummarySpec, mc: ManagementCluster): Result<Option<map<string, Unstructured>>> {
    match cs.templateResourceRefs
    case None => Success(None)
    case Some(refs) =>
      match Collect(cs, mc, refs)
      case Failure(e) => Failure(e)
      case Success(m) => Success(Some(m))
  }

  /** The Gets collectTemplateResourceRefs issues. */
  function CollectedRequests(cs: ClusterSummarySpec, mc: ManagementCluster): seq<ObjectReference> {
    match cs.templateResourceRefs
    case None => []
    case Some(refs) => Requests(cs, mc, refs)
  }

  /** Once a prefix of the references has aborted, the rest are not looked at. */
  lemma {:induction false} AbortIsFinal(cs: ClusterSummarySpec, mc: ManagementCluster, refs: seq<TemplateResourceRef>, n: nat)
    requires n <= |refs|
    requires Collect(cs, mc, refs[..n]).Failure?
    ensures Collect(cs, mc, refs) == Collect(cs, mc, refs[..n])
    ensures Requests(cs, mc, refs) == Requests(cs, mc, refs[..n])
    decreases |refs| - n
  {
    if n < |refs| {
      assert refs[..|refs| - 1][..n] == refs[..n];
      AbortIsFinal(cs, mc, refs[..|refs| - 1], n);
    } else {
      assert refs[..n] == refs;
    }
  }

  /** When the references before `i` succeed and reference `i` aborts, the
      whole collection fails with its error after its Gets. */
  lemma AbortAt(cs: ClusterSummarySpec, mc: ManagementCluster, refs: seq<TemplateResourceRef>, i: nat)
    requires i < |refs| && Collect(cs, mc, refs[..i]).Success? && Fetch(cs, mc, refs[i]).Abort?
    ensures Collect(cs, mc, refs) == Failure(Fetch(cs, mc, refs[i]).error)
    ensures Requests(cs, mc, refs) == Requests(cs, mc, refs[..i]) + Issued(cs, mc, refs[i])
  {
    assert refs[..i + 1] == refs[..i] + [refs[i]];
    CollectSnoc(cs, mc, refs[..i], refs[i]);
    AbortIsFinal(cs, mc, refs, i + 1);
  }

  /** The collection fails exactly when some reference aborts, and then with
      the error of the first reference that aborts: no partial map is returned. */
  lemma {:induction false} CollectFailsAtFirstAbort(cs: ClusterSummarySpec, mc: ManagementCluster, refs: seq<TemplateResourceRef>)
    ensures Collect(cs, mc, refs).Failure? <==> exists i :: 0 <= i < |refs| && Fetch(cs, mc, refs[i]).Abort?
    ensures forall i ::
      (0 <= i < |refs| && Fetch(cs, mc, refs[i]).Abort? && forall j :: 0 <= j < i ==> !Fetch(cs, mc, refs[j]).Abort?)
      ==> Collect(cs, mc, refs) == Failure(Fetch(cs, mc, refs[i]).error)
    decreases |refs|
  {
    if refs != [] {
      var init := refs[..|refs| - 1];
      CollectFailsAtFirstAbort(cs, mc, init);
      assert forall i :: 0 <= i < |init| ==> init[i] == refs[i];
    }
  }

  /** The reference at position `i` fetched an object and no later reference
      with the same identifier did. */
  predicate LastFoundFor(cs: ClusterSummarySpec, mc: ManagementCluster, refs: seq<TemplateResourceRef>, i: int) {
    && 0 <= i < |refs|
    && Fetch(cs, mc, refs[i]).Add?
    && forall j :: i < j < |refs| && refs[j].identifier == refs[i].identifier ==> !Fetch(cs, mc, refs[j]).Add?
  }

  /** On success the keys are exactly the identifiers of the references whose
      object was found. */
  lemma {:induction false} CollectKeys(cs: ClusterSummarySpec, mc: ManagementCluster, refs: seq<TemplateResourceRef>, m: map<string, Unstructured>)
    requires Collect(cs, mc, refs) == Success(m)
    ensures forall id :: id in m <==>
      exists i :: 0 <= i < |refs| && refs[i].identifier == id && Fetch(cs, mc, refs[i]).Add?
    decreases |refs|
  {
    if refs != [] {
      var n := |refs|;
      var init := refs[..n - 1];
      assert forall i :: 0 <= i < |init| ==> init[i] == refs[i];
      CollectKeys(cs, mc, init, Collect(cs, mc, init).value);
    }
  }

  /** The last found reference for an identifier, if it is not the final
      reference, is also the last found one among the references before it. */
  lemma LastFoundForInit(cs: ClusterSummarySpec, mc: ManagementCluster, refs: seq<TemplateResourceRef>, i: int)
    requires LastFoundFor(cs, mc, refs, i) && i < |refs| - 1
    ensures LastFoundFor(cs, mc, refs[..|refs| - 1], i)
    ensures Fetch(cs, mc, refs[|refs| - 1]).Add? ==> refs[i].identifier != refs[|refs| - 1].identifier
  {
    var init := refs[..|refs| - 1];
    forall j | i < j < |init| && init[j].identifier == init[i].identifier
      ensures !Fetch(cs, mc, init[j]).Add?
    {
      assert init[j] == refs[j];
    }
  }

  /** On success the identifier of the last found reference among those
      sharing it is bound to that reference's object. */
  lemma {:induction false} CollectLastWins(cs: ClusterSummarySpec, mc: ManagementCluster, refs: seq<TemplateResourceRef>, m: map<string, Unstructured>, i: int)
    requires Collect(cs, mc, refs) == Success(m)
    requires LastFoundFor(cs, mc, refs, i)
    ensures refs[i].identifier in m && m[refs[i].identifier] == Fetch(cs, mc, refs[i]).obj
    decreases |refs|
  {
    var n := |refs|;
    var init := refs[..n - 1];
    var last := refs[n - 1];
    assert refs == init + [last];
    CollectSnoc(cs, mc, init, last);
    var m0 := Collect(cs, mc, init).value;
    if i < n - 1 {
      LastFoundForInit(cs, mc, refs, i);
      assert init[i] == refs[i];
      CollectLastWins(cs, mc, init, m0, i);
    }
  }

  /** A reference issues at most one Get, for its resolved object, and
      exactly one unless it aborts before the Get. */
  lemma IssuedFacts(cs: ClusterSummarySpec, mc: ManagementCluster, ref: TemplateResourceRef)
    ensures |Issued(cs, mc, ref)| <= 1
    ensures Issued(cs, mc, ref) != [] ==> Resolve(cs, mc, ref) == Success(Issued(cs, mc, ref)[0])
    ensures !Fetch(cs, mc, ref).Abort? ==> |Issued(cs, mc, ref)| == 1
  {
  }

  /** A step succeeds exactly when the earlier ones did and this reference
      does not abort; a skipped reference leaves the result as it was. */
  lemma AbsorbFacts(cs: ClusterSummarySpec, mc: ManagementCluster, acc: Result<map<string, Unstructured>>, ref: TemplateResourceRef)
    ensures Absorb(cs, mc, acc, ref).Success? <==> acc.Success? && !Fetch(cs, mc, ref).Abort?
    ensures Fetch(cs, mc, ref) == Skip ==> Absorb(cs, mc, acc, ref) == acc
  {
  }

  /** Dropping an element other than the last commutes with dropping the last. */
  lemma DropBeforeLast<T>(xs: seq<T>, i: nat)
    requires i < |xs| - 1
    ensures xs[..i] + xs[i + 1..] == (xs[..|xs| - 1][..i] + xs[..|xs| - 1][i + 1..]) + [xs[|xs| - 1]]
  {
    var init := xs[..|xs| - 1];
    assert init[..i] == xs[..i];
    assert init[i + 1..] + [xs[|xs| - 1]] == xs[i + 1..];
  }

  /** A reference whose object is not found leaves the outcome as if it were
      not in the list: later references are still processed. */
  lemma {:induction false} NotFoundIsSkipped(cs: ClusterSummarySpec, mc: ManagementCluster, refs: seq<TemplateResourceRef>, i: nat)
    requires i < |refs| && Fetch(cs, mc, refs[i]) == Skip
    ensures Collect(cs, mc, refs[..i] + refs[i + 1..]) == Collect(cs, mc, refs)
    decreases |refs|
  {
    var n := |refs|;
    var init := refs[..n - 1];
    var last := refs[n - 1];
    assert refs == init + [last];
    CollectSnoc(cs, mc, init, last);
    if i == n - 1 {
      assert refs[..i] + refs[i + 1..] == init;
      AbsorbFacts(cs, mc, Collect(cs, mc, init), last);
    } else {
      assert init[i] == refs[i];
      NotFoundIsSkipped(cs, mc, init, i);
      DropBeforeLast(refs, i);
      CollectSnoc(cs, mc, init[..i] + init[i + 1..], last);
    }
  }

  /** The k-th Get is for the k-th reference, with its defaulted namespace
      and rendered name; on success every reference is fetched. */
  lemma {:induction false} RequestsAreResolved(cs: ClusterSummarySpec, mc: ManagementCluster, refs: seq<TemplateResourceRef>)
    ensures |Requests(cs, mc, refs)| <= |refs|
    ensures forall k :: 0 <= k < |Requests(cs, mc, refs)| ==> Resolve(cs, mc, refs[k]) == Success(Requests(cs, mc, refs)[k])
    ensures Collect(cs, mc, refs).Success? ==> |Requests(cs, mc, refs)| == |refs|
    decreases |refs|
  {
    if refs != [] {
      var n := |refs|;
      var init := refs[..n - 1];
      var last := refs[n - 1];
      RequestsAreResolved(cs, mc, init);
      assert refs == init + [last];
      CollectSnoc(cs, mc, init, last);
      AbsorbFacts(cs, mc, Collect(cs, mc, init), last);
      IssuedFacts(cs, mc, last);
      var rs0 := Requests(cs, mc, init);
      var rs := Requests(cs, mc, refs);
      if Collect(cs, mc, init).Success? {
        assert rs == rs0 + Issued(cs, mc, last);
        if |rs| == n {
          assert rs[n - 1] == Issued(cs, mc, last)[0];
        }
      } else {
        assert rs == rs0;
      }
      forall k | 0 <= k < |rs0|
        ensures Resolve(cs, mc, refs[k]) == Success(rs[k])
      {
        assert refs[k] == init[k];
        assert rs[k] == rs0[k];
      }
    }
  }

  /** collectTemplateResourceRefs: walks the references in order on a copy of
      each, aborting on the first error and skipping objects that are not found. */
  method CollectTemplateResourceRefs(cs: ClusterSummarySpec, mc: ManagementCluster)
    returns (result: Result<Option<map<string, Unstructured>>>, ghost fetched: seq<ObjectReference>)
    ensures result == Collected(cs, mc)
    ensures fetched == CollectedRequests(cs, mc)
    ensures cs.templateResourceRefs.None? ==> result == Success(None) && fetched == []
  {
    fetched := [];
    if cs.templateResourceRefs.None? {
      result := Success(None);
      return;
    }
    var refs := cs.templateResourceRefs.value;
    var collected: map<string, Unstructured> := map[];
    for i := 0 to |refs|
      invariant Collect(cs, mc, refs[..i]) == Success(collected)
      invariant fetched == Requests(cs, mc, refs[..i])
    {
      var ref := refs[i];
      ref := ref.(resource := ref.resource.(namespace := TemplateResourceNamespace(cs, ref)));
      var name := mc.renderName(cs, ref.resource.name);
      if name.Failure? {
        assert Fetch(cs, mc, refs[i]) == Abort(name.error);
        AbortAt(cs, mc, refs, i);
        result := Failure(name.error);
        return;
      }
      ref := ref.(resource := ref.resource.(name := name.value));
      assert Resolve(cs, mc, refs[i]) == Success(ref.resource);
      var client := mc.dynamicClient(ref.resource.gvk, ref.resource.namespace);
      if client.ClientFailed? {
        assert Fetch(cs, mc, refs[i]) == Abort(client.error);
        AbortAt(cs, mc, refs, i);
        result := Failure(client.error);
        return;
      }
      assert Issued(cs, mc, refs[i]) == [ref.resource];
      fetched := fetched + [ref.resource];
      var outcome := mc.get(ref.resource.gvk, ref.resource.namespace, ref.resource.name);
      match outcome {
        case NotFound =>
          assert Fetch(cs, mc, refs[i]) == Skip;
        case GetFailed(e) =>
          assert Fetch(cs, mc, refs[i]) == Abort(e);
          AbortAt(cs, mc, refs, i);
          result := Failure(e);
          return;
        case Found(u) =>
          assert Fetch(cs, mc, refs[i]) == Add(u);
          collected := collected[ref.identifier := u];
      }
      assert refs[..i + 1] == refs[..i] + [refs[i]];
      CollectSnoc(cs, mc, refs[..i], refs[i]);
    }
    assert refs[..|refs|] == refs;
    result := Success(Some(collected));
  }
}
