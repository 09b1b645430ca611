/** The `MCPServer` controller: users, the API server, the controller's stale view of it and the
    leaf registry, interleaved one step at a time. */
module CrdProtocol {
  import opened Common

  const FINALIZER := "federation.mcp.io/cleanup"
  const ALIAS_PREFIX := "crd-"

  datatype Key = Key(namespace: string, name: string)
  /** `alias` is asked for, and never used. */
  datatype Spec = Spec(
    alias: string,
    url: string,
    transport: string,
    authToken: Option<string>,
    authTokenFile: Option<string>,
    timeoutSeconds: Option<nat>,
    tags: seq<string>
  )
  datatype Cr = Cr(spec: Spec, finalizers: seq<string>, deleting: bool)

  datatype LeafConfig = LeafConfig(
    alias: string,
    url: string,
    transport: Transport,
    authToken: Option<string>,
    authTokenFile: Option<string>,
    timeoutSeconds: Option<nat>,
    tags: seq<string>
  )

  /** `owner` is the resource the controller registered the leaf for, if it was the controller. */
  datatype Leaf = Leaf(owner: Option<Key>, config: LeafConfig)

  function CrdAlias(k: Key): string {
    ALIAS_PREFIX + k.namespace + "-" + k.name
  }

  function ParseTransport(s: string): Option<Transport> {
    if s == "http-post" then Some(HttpPost)
    else if s == "streamable-http" then Some(StreamableHttp)
    else None
  }

  function ConfigFor(k: Key, spec: Spec): Option<LeafConfig> {
    match ParseTransport(spec.transport)
    case None => None
    case Some(t) =>
      Some(LeafConfig(CrdAlias(k), spec.url, t, spec.authToken, spec.authTokenFile, spec.timeoutSeconds,
                      spec.tags + ["crd-discovered"]))
  }

  function WithoutOurs(finalizers: seq<string>): (r: seq<string>)
    ensures FINALIZER !in r
    ensures forall f :: f in r <==> f in finalizers && f != FINALIZER
  {
    if finalizers == [] then []
    else (if finalizers[0] == FINALIZER then [] else [finalizers[0]]) + WithoutOurs(finalizers[1..])
  }

  /** A leaf's configuration as the resource describes it. */
  predicate Describes(config: LeafConfig, k: Key, spec: Spec) {
    && config.alias == "crd-" + k.namespace + "-" + k.name
    && config.url == spec.url
    && config.authToken == spec.authToken && config.authTokenFile == spec.authTokenFile
    && config.timeoutSeconds == spec.timeoutSeconds
    && config.tags == spec.tags + ["crd-discovered"]
    && (config.transport == HttpPost <==> spec.transport == "http-post")
    && (config.transport == StreamableHttp <==> spec.transport == "streamable-http")
  }

  /** There is a configuration exactly when the transport is one of the two known ones, and it is what the resource
      describes. */
  lemma ConfigDescribes(k: Key, spec: Spec)
    ensures ConfigFor(k, spec).Some? <==> spec.transport == "http-post" || spec.transport == "streamable-http"
    ensures ConfigFor(k, spec).Some? ==> Describes(ConfigFor(k, spec).value, k, spec)
    ensures CrdAlias(k) == "crd-" + k.namespace + "-" + k.name
  {
    if spec.transport == "http-post" {
      assert spec.transport != "streamable-http" by { assert |spec.transport| == 9; }
    }
  }

  lemma WithoutOursStep(f: string, rest: seq<string>)
    ensures f != FINALIZER ==> WithoutOurs([f] + rest) == [f] + WithoutOurs(rest)
    ensures f == FINALIZER ==> WithoutOurs([f] + rest) == WithoutOurs(rest)
  {
    assert ([f] + rest)[1..] == rest;
  }

  lemma FirstOf(a: seq<string>, x: string, b: seq<string>)
    requires a != []
    ensures a == [a[0]] + a[1..] && a + [x] + b == [a[0]] + (a[1..] + [x] + b)
  {
  }

  lemma {:induction false} OursIsTakenOut(a: seq<string>, b: seq<string>)
    requires FINALIZER !in a
    ensures WithoutOurs(a + [FINALIZER] + b) == a + WithoutOurs(b) && WithoutOurs(a) == a
    decreases |a|
  {
    if a == [] {
      assert a + [FINALIZER] + b == [FINALIZER] + b;
      WithoutOursStep(FINALIZER, b);
    } else {
      FirstOf(a, FINALIZER, b);
      OursIsTakenOut(a[1..], b);
      WithoutOursStep(a[0], a[1..] + [FINALIZER] + b);
      WithoutOursStep(a[0], a[1..]);
      assert a + WithoutOurs(b) == [a[0]] + (a[1..] + WithoutOurs(b));
    }
  }

  /** Our finalizer is taken out of the list, and all others stay in their order. */
  lemma OthersKeepTheirOrder(a: seq<string>, ours: string, b: seq<string>)
    requires ours == "federation.mcp.io/cleanup" && ours !in a
    ensures WithoutOurs(a + [ours] + b) == a + WithoutOurs(b)
    ensures WithoutOurs(a) == a
  {
    assert ours == FINALIZER;
    OursIsTakenOut(a, b);
  }

  // ---------- State ----------

  /** A reconcile call holds the version of the object it was given until it returns. */
  datatype Work = Idle | Working(obj: nat, leafRemoved: bool)

  /** Everything about one resource name: the versions the API server has stored, oldest first,
      with `None` where the object does not exist; the version in the controller's view; and the
      reconcile call in progress. The controller runs one call per resource at a time. */
  datatype Resource = Resource(log: seq<Option<Cr>>, seen: nat, work: Work) {
    predicate WellFormed() {
      seen < |log| && (work.Working? ==> work.obj <= seen)
    }

    function Current(): Option<Cr>
      requires WellFormed()
    {
      log[|log| - 1]
    }

    /** The oldest version a present or future reconcile call can act on. */
    function Low(): nat {
      if work.Working? then work.obj else seen
    }

    function Store(version: Option<Cr>): Resource {
      this.(log := log + [version])
    }
  }

  datatype World = World(api: map<Key, Resource>, registry: map<string, Leaf>) {
    function At(k: Key): Resource {
      if k in api then api[k] else Resource([None], 0, Idle)
    }

    function Put(k: Key, r: Resource): World {
      this.(api := api[k := r])
    }
  }

  predicate Held(v: Option<Cr>) {
    v.Some? && FINALIZER in v.value.finalizers
  }

  predicate Dying(v: Option<Cr>) {
    Held(v) && v.value.deleting
  }

  predicate Ready(v: Option<Cr>) {
    Held(v) && !v.value.deleting
  }

  // ---------- Steps ----------

  datatype Step =
    | UserCreate(k: Key, spec: Spec, finalizers: seq<string>)
    | UserEdit(k: Key, spec: Spec, finalizers: seq<string>)
    | UserDelete(k: Key)
    | Collect(k: Key)
    | ViewAdvance(k: Key, to: nat)
    | Begin(k: Key)
    | RemoveLeaf(k: Key)
    | PatchFinalizers(k: Key, reaches: bool)
    | AddLeaf(k: Key)
    | Finish(k: Key)
    | OtherWriter(alias: string, leaf: Option<LeafConfig>)
    | Restart

  /** The API server's answer to a merge patch of the finalizer list: no object, or a terminating
      object asked to take a finalizer it does not have, refuses it. */
  predicate PatchAccepted(current: Option<Cr>, finalizers: seq<string>) {
    && current.Some?
    && (current.value.deleting ==> forall f :: f in finalizers ==> f in current.value.finalizers)
  }

  /** The finalizer list a reconcile call asks for, from the version it was given. */
  function WantedFinalizers(obj: Cr): seq<string> {
    if obj.deleting then WithoutOurs(obj.finalizers) else obj.finalizers + [FINALIZER]
  }

  predicate Enabled(w: World, s: Step) {
    match s
    case UserCreate(k, _, fs) => w.At(k).WellFormed() && w.At(k).Current().None? && FINALIZER !in fs
    case UserEdit(k, _, fs) =>
      var r := w.At(k);
      && r.WellFormed() && PatchAccepted(r.Current(), fs)
      && (FINALIZER in fs <==> FINALIZER in r.Current().value.finalizers)
    case UserDelete(k) => w.At(k).WellFormed() && w.At(k).Current().Some?
    case Collect(k) =>
      var r := w.At(k);
      r.WellFormed() && r.Current().Some? && r.Current().value.deleting && r.Current().value.finalizers == []
    case ViewAdvance(k, to) => w.At(k).WellFormed() && w.At(k).seen < to < |w.At(k).log|
    case Begin(k) =>
      var r := w.At(k);
      r.WellFormed() && r.work.Idle? && r.log[r.seen].Some?
    case RemoveLeaf(k) =>
      var r := w.At(k);
      r.WellFormed() && r.work.Working? && Dying(r.log[r.work.obj]) && !r.work.leafRemoved
    case PatchFinalizers(k, _) =>
      var r := w.At(k);
      && r.WellFormed() && r.work.Working? && r.log[r.work.obj].Some?
      && (if r.log[r.work.obj].value.deleting then Dying(r.log[r.work.obj]) && r.work.leafRemoved
          else !Held(r.log[r.work.obj]))
    case AddLeaf(k) =>
      var r := w.At(k);
      && r.WellFormed() && r.work.Working? && Ready(r.log[r.work.obj])
      && ConfigFor(k, r.log[r.work.obj].value.spec).Some?
    case Finish(k) =>
      var r := w.At(k);
      && r.WellFormed() && r.work.Working? && r.log[r.work.obj].Some?
      && (if r.log[r.work.obj].value.deleting then !Held(r.log[r.work.obj])
          else Held(r.log[r.work.obj]) && ConfigFor(k, r.log[r.work.obj].value.spec).None?)
    case OtherWriter(_, _) => true
    case Restart => forall k :: k in w.api ==> w.api[k].WellFormed()
  }

  function Apply(w: World, s: Step): World
    requires Enabled(w, s)
  {
    match s
    case UserCreate(k, spec, fs) => w.Put(k, w.At(k).Store(Some(Cr(spec, fs, false))))
    case UserEdit(k, spec, fs) =>
      var r := w.At(k);
      w.Put(k, r.Store(Some(r.Current().value.(spec := spec, finalizers := fs))))
    case UserDelete(k) =>
      var r := w.At(k);
      var cr := r.Current().value;
      w.Put(k, r.Store(if cr.finalizers == [] then None else Some(cr.(deleting := true))))
    case Collect(k) => w.Put(k, w.At(k).Store(None))
    case ViewAdvance(k, to) => w.Put(k, w.At(k).(seen := to))
    case Begin(k) => w.Put(k, w.At(k).(work := Working(w.At(k).seen, false)))
    case RemoveLeaf(k) =>
      var r := w.At(k);
      World(w.api[k := r.(work := r.work.(leafRemoved := true))], w.registry - {CrdAlias(k)})
    case PatchFinalizers(k, reaches) =>
      var r := w.At(k);
      var fs := WantedFinalizers(r.log[r.work.obj].value);
      var stored := if reaches && PatchAccepted(r.Current(), fs)
                    then r.Store(Some(r.Current().value.(finalizers := fs))) else r;
      w.Put(k, stored.(work := Idle))
    case AddLeaf(k) =>
      var r := w.At(k);
      var config := ConfigFor(k, r.log[r.work.obj].value.spec).value;
      World(w.api[k := r.(work := Idle)], w.registry[CrdAlias(k) := Leaf(Some(k), config)])
    case Finish(k) => w.Put(k, w.At(k).(work := Idle))
    case OtherWriter(alias, leaf) =>
      w.(registry := if leaf.Some? then w.registry[alias := Leaf(None, leaf.value)] else w.registry - {alias})
    case Restart => World(map k | k in w.api :: w.api[k].(work := Idle), map[])
  }

  predicate ValidRun(w: World, steps: seq<Step>)
    decreases |steps|
  {
    steps == [] || (Enabled(w, steps[0]) && ValidRun(Apply(w, steps[0]), steps[1..]))
  }

  function Run(w: World, steps: seq<Step>): World
    requires ValidRun(w, steps)
    decreases |steps|
  {
    if steps == [] then w else Run(Apply(w, steps[0]), steps[1..])
  }

  const INITIAL := World(map[], map[])

  // ---------- Invariant ----------

  /** Every version from `i` up to but not including `j` is a terminating one. */
  ghost predicate DyingFrom(log: seq<Option<Cr>>, i: nat, j: nat) {
    j <= |log| && forall m :: i <= m < j ==> Dying(log[m])
  }

  /** Version `i` is the first without our finalizer after one with it. */
  ghost predicate ReleasedAt(log: seq<Option<Cr>>, i: nat) {
    0 < i < |log| && Held(log[i - 1]) && !Held(log[i])
  }

  /** Version `i` is live, with our finalizer, straight after a terminating one. */
  ghost predicate RevivedAt(log: seq<Option<Cr>>, i: nat) {
    0 < i < |log| && Dying(log[i - 1]) && Ready(log[i])
  }

  /** A terminating object stays so until our finalizer leaves it. */
  ghost predicate DyingStays(log: seq<Option<Cr>>) {
    forall i: nat :: !RevivedAt(log, i)
  }

  /** Our finalizer only ever left an object that had been terminating ever since some version the
      controller has already acted on. */
  ghost predicate RemovalsAreOurs(log: seq<Option<Cr>>, low: nat) {
    forall i: nat :: ReleasedAt(log, i) ==> exists p: nat :: p <= low && p < i && DyingFrom(log, p, i)
  }

  /** Until the controller's view moves past a terminating version, nothing it does puts our
      finalizer back. */
  ghost predicate NoRevival(log: seq<Option<Cr>>, low: nat) {
    forall o, j :: low <= o <= j < |log| && Dying(log[o]) && Held(log[j]) ==> DyingFrom(log, o, j + 1)
  }

  ghost predicate ResourceInv(r: Resource) {
    && r.WellFormed()
    && DyingStays(r.log) && RemovalsAreOurs(r.log, r.Low()) && NoRevival(r.log, r.Low())
    && (r.work.Working? && r.work.leafRemoved ==> Dying(r.log[r.work.obj]))
  }

  /** The leaf was built from version `i` of the resource, and our finalizer has been on every
      version since: the resource was never gone in between. */
  ghost predicate BuiltFrom(k: Key, r: Resource, config: LeafConfig, i: nat) {
    && i <= r.seen < |r.log| && Ready(r.log[i]) && ConfigFor(k, r.log[i].value.spec) == Some(config)
    && forall j :: i <= j < |r.log| ==> Held(r.log[j])
  }

  /** A leaf the controller registered belongs to a resource that exists with our finalizer. */
  ghost predicate LeafIsOwned(w: World, alias: string)
    requires alias in w.registry
  {
    var leaf := w.registry[alias];
    leaf.owner.Some? ==>
      var k := leaf.owner.value;
      && alias == CrdAlias(k)
      && (exists i: nat :: BuiltFrom(k, w.At(k), leaf.config, i))
      && !(w.At(k).work.Working? && w.At(k).work.leafRemoved)
  }

  ghost predicate Inv(w: World) {
    && (forall k :: k in w.api ==> ResourceInv(w.api[k]))
    && (forall alias :: alias in w.registry ==> LeafIsOwned(w, alias))
  }

  // ---------- One resource ----------

  /** From a ready version the controller may still act on, our finalizer has never left. */
  lemma {:induction false} ReadyMeansHeld(r: Resource, i: nat, j: nat)
    requires ResourceInv(r) && r.Low() <= i <= j < |r.log| && Ready(r.log[i])
    ensures Held(r.log[j])
    decreases j
  {
    if i < j {
      ReadyMeansHeld(r, i, j - 1);
      assert !ReleasedAt(r.log, j);
    }
  }

  /** A version some other party stores: it neither adds nor takes away our finalizer, and does not
      undo a deletion. */
  ghost predicate Foreign(before: Option<Cr>, after: Option<Cr>) {
    (Held(after) <==> Held(before)) && (Dying(before) ==> Dying(after))
  }

  lemma ForeignStore(r: Resource, v: Option<Cr>)
    requires ResourceInv(r) && Foreign(r.Current(), v)
    ensures ResourceInv(r.Store(v))
  {
    var log := r.log + [v];
    var n := |r.log|;
    forall i: nat | ReleasedAt(log, i)
      ensures exists p: nat :: p <= r.Low() && p < i && DyingFrom(log, p, i)
    {
      assert ReleasedAt(r.log, i);
      var p: nat :| p <= r.Low() && p < i && DyingFrom(r.log, p, i);
      assert DyingFrom(log, p, i);
    }
    assert forall i: nat :: RevivedAt(log, i) && i < n ==> RevivedAt(r.log, i);
    forall o, j | r.Low() <= o <= j <= n && Dying(log[o]) && Held(log[j])
      ensures DyingFrom(log, o, j + 1)
    {
      if o < n {
        if j == n { assert Held(r.log[n - 1]) && DyingFrom(r.log, o, n); }
        else { assert DyingFrom(r.log, o, j + 1); }
      }
    }
  }

  /** The cleanup patch: the call holds a terminating version with our finalizer. */
  lemma CleanupStore(r: Resource, v: Option<Cr>)
    requires ResourceInv(r) && r.work.Working? && Dying(r.log[r.work.obj]) && v.Some? && !Held(v)
    ensures ResourceInv(r.Store(v))
  {
    var log := r.log + [v];
    var n := |r.log|;
    forall i: nat | ReleasedAt(log, i)
      ensures exists p: nat :: p <= r.Low() && p < i && DyingFrom(log, p, i)
    {
      if i < n {
        assert ReleasedAt(r.log, i);
        var p: nat :| p <= r.Low() && p < i && DyingFrom(r.log, p, i);
        assert DyingFrom(log, p, i);
      } else {
        assert DyingFrom(r.log, r.Low(), n);
        assert DyingFrom(log, r.Low(), n);
      }
    }
    assert forall i: nat :: RevivedAt(log, i) ==> RevivedAt(r.log, i);
    forall o, j | r.Low() <= o <= j <= n && Dying(log[o]) && Held(log[j])
      ensures DyingFrom(log, o, j + 1)
    {
      assert DyingFrom(r.log, o, j + 1);
    }
  }

  /** The patch that sets our finalizer: the call holds a live version without it. */
  lemma AdoptStore(r: Resource, v: Option<Cr>)
    requires ResourceInv(r) && r.work.Working? && !Held(r.log[r.work.obj])
    requires Held(v) && r.Current().Some? && v.value.deleting == r.Current().value.deleting
    requires r.Current().value.deleting ==> Held(r.Current())
    ensures ResourceInv(r.Store(v))
  {
    var log := r.log + [v];
    var n := |r.log|;
    forall i: nat | ReleasedAt(log, i)
      ensures exists p: nat :: p <= r.Low() && p < i && DyingFrom(log, p, i)
    {
      assert ReleasedAt(r.log, i);
      var p: nat :| p <= r.Low() && p < i && DyingFrom(r.log, p, i);
      assert DyingFrom(log, p, i);
    }
    assert forall i: nat :: RevivedAt(log, i) && i < n ==> RevivedAt(r.log, i);
    forall o, j | r.Low() <= o <= j <= n && Dying(log[o]) && Held(log[j])
      ensures DyingFrom(log, o, j + 1)
    {
      if j < n {
        assert DyingFrom(r.log, o, j + 1);
      } else if o < n {
        DyingUntilNow(r, o, n - 1);
      }
    }
  }

  /** What a patch that is accepted stores: the present object with the finalizers of the version that the call was
      given, ours taken out or added. Foreign finalizers that came or went meanwhile are undone. */
  lemma PatchStores(w: World, k: Key)
    requires Enabled(w, PatchFinalizers(k, true))
    requires PatchAccepted(w.At(k).Current(), WantedFinalizers(w.At(k).log[w.At(k).work.obj].value))
    ensures var r := w.At(k); var given := r.log[r.work.obj].value;
            var fs := if given.deleting then WithoutOurs(given.finalizers)
                      else given.finalizers + ["federation.mcp.io/cleanup"];
            && Apply(w, PatchFinalizers(k, true)).At(k).log
               == r.log + [Some(Cr(r.Current().value.spec, fs, r.Current().value.deleting))]
            && Apply(w, PatchFinalizers(k, true)).registry == w.registry
  {
  }

  /** While the call holds a version without our finalizer, a later terminating version is still
      terminating: only a call that holds one could have ended that. */
  lemma {:induction false} DyingUntilNow(r: Resource, o: nat, j: nat)
    requires ResourceInv(r) && r.work.Working? && !Held(r.log[r.work.obj])
    requires r.work.obj <= o <= j < |r.log| && Dying(r.log[o])
    ensures DyingFrom(r.log, o, j + 1)
    decreases j
  {
    if o < j {
      DyingUntilNow(r, o, j - 1);
      assert Dying(r.log[j - 1]) && !RevivedAt(r.log, j) && !ReleasedAt(r.log, j);
    }
  }

  /** Moving on to later versions keeps the invariant. */
  lemma LowRises(r: Resource, seen: nat, work: Work)
    requires ResourceInv(r)
    requires var q := r.(seen := seen, work := work); q.WellFormed() && r.Low() <= q.Low()
    requires work.Working? && work.leafRemoved ==> Dying(r.log[work.obj])
    ensures ResourceInv(r.(seen := seen, work := work))
  {
    var q := r.(seen := seen, work := work);
    forall i: nat | ReleasedAt(q.log, i)
      ensures exists p: nat :: p <= q.Low() && p < i && DyingFrom(q.log, p, i)
    {
      var p: nat :| p <= r.Low() && p < i && DyingFrom(r.log, p, i);
    }
  }

  // ---------- Every step ----------

  /** The resource a step names, if any. */
  function Target(s: Step): Option<Key> {
    match s
    case OtherWriter(_, _) => None
    case Restart => None
    case _ => Some(s.k)
  }

  lemma PatchKeepsResource(r: Resource, k: Key, w: World, reaches: bool)
    requires r == w.At(k) && ResourceInv(r) && Enabled(w, PatchFinalizers(k, reaches))
    ensures ResourceInv(Apply(w, PatchFinalizers(k, reaches)).At(k))
  {
    var obj := r.log[r.work.obj].value;
    var fs := WantedFinalizers(obj);
    var stored := r;
    if reaches && PatchAccepted(r.Current(), fs) {
      var v := Some(r.Current().value.(finalizers := fs));
      if obj.deleting { CleanupStore(r, v); } else { AdoptStore(r, v); }
      stored := r.Store(v);
    }
    LowRises(stored, stored.seen, Idle);
  }

  /** What a step of a user or of the API server stores. */
  function ForeignVersion(r: Resource, s: Step): Option<Cr>
    requires r.WellFormed()
    requires s.UserEdit? || s.UserDelete? ==> r.Current().Some?
  {
    match s
    case UserCreate(_, spec, fs) => Some(Cr(spec, fs, false))
    case UserEdit(_, spec, fs) => Some(r.Current().value.(spec := spec, finalizers := fs))
    case UserDelete(_) =>
      var cr := r.Current().value;
      if cr.finalizers == [] then None else Some(cr.(deleting := true))
    case _ => None
  }

  lemma OutsideStepKeepsResource(w: World, s: Step, k: Key)
    requires ResourceInv(w.At(k)) && Enabled(w, s) && Target(s) == Some(k)
    requires s.UserCreate? || s.UserEdit? || s.UserDelete? || s.Collect?
    ensures ResourceInv(Apply(w, s).At(k))
  {
    var r := w.At(k);
    var v := ForeignVersion(r, s);
    assert Apply(w, s).At(k) == r.Store(v);
    ForeignStore(r, v);
  }

  lemma ControllerStepKeepsResource(w: World, s: Step, k: Key)
    requires ResourceInv(w.At(k)) && Enabled(w, s) && Target(s) == Some(k)
    requires s.ViewAdvance? || s.Begin? || s.RemoveLeaf? || s.AddLeaf? || s.Finish?
    ensures ResourceInv(Apply(w, s).At(k))
  {
    var r := w.At(k);
    match s
    case ViewAdvance(_, to) => LowRises(r, to, r.work);
    case Begin(_) => LowRises(r, r.seen, Working(r.seen, false));
    case RemoveLeaf(_) => LowRises(r, r.seen, r.work.(leafRemoved := true));
    case AddLeaf(_) => LowRises(r, r.seen, Idle);
    case Finish(_) => LowRises(r, r.seen, Idle);
  }

  lemma StepKeepsResource(w: World, s: Step, k: Key)
    requires Inv(w) && Enabled(w, s) && Target(s) == Some(k)
    ensures ResourceInv(Apply(w, s).At(k))
  {
    assert ResourceInv(w.At(k));
    match s
    case UserCreate(_, _, _) => OutsideStepKeepsResource(w, s, k);
    case UserEdit(_, _, _) => OutsideStepKeepsResource(w, s, k);
    case UserDelete(_) => OutsideStepKeepsResource(w, s, k);
    case Collect(_) => OutsideStepKeepsResource(w, s, k);
    case PatchFinalizers(_, reaches) => PatchKeepsResource(w.At(k), k, w, reaches);
    case _ => ControllerStepKeepsResource(w, s, k);
  }

  /** A step on resource `k` does not take our finalizer off while `k` has a leaf. */
  lemma StepKeepsHold(w: World, s: Step, k: Key)
    requires Inv(w) && Enabled(w, s) && Target(s) == Some(k)
    requires Held(w.At(k).Current()) && !(w.At(k).work.Working? && w.At(k).work.leafRemoved)
    ensures var r, q := w.At(k), Apply(w, s).At(k);
            q.log == r.log || (q.log == r.log + [q.log[|r.log|]] && |q.log| == |r.log| + 1 && Held(q.log[|r.log|]))
    ensures w.At(k).seen <= Apply(w, s).At(k).seen
  {
  }

  lemma NewLeafIsOwned(w: World, k: Key)
    requires Inv(w) && Enabled(w, AddLeaf(k))
    ensures LeafIsOwned(Apply(w, AddLeaf(k)), CrdAlias(k))
  {
    var w', r := Apply(w, AddLeaf(k)), w.At(k);
    assert ResourceInv(r);
    forall j | r.work.obj <= j < |r.log| ensures Held(r.log[j]) {
      ReadyMeansHeld(r, r.work.obj, j);
    }
    assert BuiltFrom(k, w'.At(k), w'.registry[CrdAlias(k)].config, r.work.obj);
  }

  /** A leaf that a step leaves alone is there after it, unless the step cleans up its owner. */
  lemma StepOnRegistry(w: World, s: Step, alias: string)
    requires Enabled(w, s) && alias in Apply(w, s).registry
    ensures || (s.AddLeaf? && alias == CrdAlias(s.k))
            || Apply(w, s).registry[alias].owner.None?
            || (&& alias in w.registry && w.registry[alias] == Apply(w, s).registry[alias]
                && !s.Restart? && !(s.RemoveLeaf? && alias == CrdAlias(s.k)))
  {
  }

  lemma OwnStepKeepsLeaf(w: World, s: Step, k: Key, config: LeafConfig, i: nat)
    requires Inv(w) && Enabled(w, s) && Target(s) == Some(k) && !s.RemoveLeaf?
    requires BuiltFrom(k, w.At(k), config, i) && !(w.At(k).work.Working? && w.At(k).work.leafRemoved)
    ensures var r := Apply(w, s).At(k);
            BuiltFrom(k, r, config, i) && !(r.work.Working? && r.work.leafRemoved)
  {
    StepKeepsHold(w, s, k);
  }

  /** A leaf that a step leaves in the registry stays owned. */
  lemma KeptLeafStaysOwned(w: World, s: Step, k: Key, config: LeafConfig, i: nat)
    requires Inv(w) && Enabled(w, s) && !s.Restart? && s != RemoveLeaf(k)
    requires BuiltFrom(k, w.At(k), config, i) && !(w.At(k).work.Working? && w.At(k).work.leafRemoved)
    ensures var r := Apply(w, s).At(k);
            BuiltFrom(k, r, config, i) && !(r.work.Working? && r.work.leafRemoved)
  {
    if Target(s) == Some(k) {
      OwnStepKeepsLeaf(w, s, k, config, i);
    } else {
      StepsElsewhere(w, s, k);
    }
  }

  lemma StepsElsewhere(w: World, s: Step, k: Key)
    requires Enabled(w, s) && !s.Restart? && Target(s) != Some(k)
    ensures Apply(w, s).At(k) == w.At(k)
  {
  }

  lemma StepKeepsLeaf(w: World, s: Step, alias: string)
    requires Inv(w) && Enabled(w, s) && alias in Apply(w, s).registry
    ensures LeafIsOwned(Apply(w, s), alias)
  {
    StepOnRegistry(w, s, alias);
    if s.AddLeaf? && alias == CrdAlias(s.k) {
      NewLeafIsOwned(w, s.k);
    } else if Apply(w, s).registry[alias].owner.Some? {
      var k, config := w.registry[alias].owner.value, w.registry[alias].config;
      assert LeafIsOwned(w, alias);
      var i: nat :| BuiltFrom(k, w.At(k), config, i);
      KeptLeafStaysOwned(w, s, k, config, i);
    }
  }

  lemma StepKeepsInv(w: World, s: Step)
    requires Inv(w) && Enabled(w, s)
    ensures Inv(Apply(w, s))
  {
    var w' := Apply(w, s);
    forall k | k in w'.api ensures ResourceInv(w'.api[k]) {
      if Target(s) == Some(k) {
        StepKeepsResource(w, s, k);
      } else if s.Restart? {
        LowRises(w.api[k], w.api[k].seen, Idle);
      }
    }
    forall alias | alias in w'.registry ensures LeafIsOwned(w', alias) {
      StepKeepsLeaf(w, s, alias);
    }
  }

  lemma {:induction false} RunKeepsInv(w: World, steps: seq<Step>)
    requires Inv(w) && ValidRun(w, steps)
    ensures Inv(Run(w, steps))
    decreases |steps|
  {
    if steps != [] {
      StepKeepsInv(w, steps[0]);
      RunKeepsInv(Apply(w, steps[0]), steps[1..]);
    }
  }

  /** Theorem: in every run, a leaf the controller registered is there only while its resource
      exists on the API server with our finalizer; it was built from a version the controller had
      seen, since when the resource was never gone. */
  lemma LeafOnlyWhileHeld(steps: seq<Step>, alias: string)
    requires ValidRun(INITIAL, steps)
    requires var w := Run(INITIAL, steps); alias in w.registry && w.registry[alias].owner.Some?
    ensures var w := Run(INITIAL, steps);
            var k := w.registry[alias].owner.value;
            && alias == CrdAlias(k)
            && w.At(k).WellFormed() && Held(w.At(k).Current())
            && exists i: nat :: BuiltFrom(k, w.At(k), w.registry[alias].config, i)
  {
    RunKeepsInv(INITIAL, steps);
    var w := Run(INITIAL, steps);
    assert LeafIsOwned(w, alias);
    var k, config := w.registry[alias].owner.value, w.registry[alias].config;
    var i: nat :| BuiltFrom(k, w.At(k), config, i);
  }

  // ---------- How long a leaf stays ----------

  /** Does this step take the leaf of `k` away, or put another one in its place? */
  predicate Displaces(s: Step, k: Key) {
    match s
    case RemoveLeaf(other) => CrdAlias(other) == CrdAlias(k)
    case AddLeaf(other) => other != k && CrdAlias(other) == CrdAlias(k)
    case OtherWriter(alias, _) => alias == CrdAlias(k)
    case Restart => true
    case _ => false
  }

  predicate HasLeaf(w: World, k: Key) {
    CrdAlias(k) in w.registry && w.registry[CrdAlias(k)].owner == Some(k)
  }

  /** Exactly these steps end the time a resource has its leaf. */
  lemma LeafStaysExactly(w: World, s: Step, k: Key)
    requires Enabled(w, s) && HasLeaf(w, k)
    ensures HasLeaf(Apply(w, s), k) <==> !Displaces(s, k)
  {
  }

  /** Steps of the controller on other resources, and steps of users, leave the leaf of `k` alone when no other
      resource in the run has its alias. */
  lemma {:induction false} LeafStaysAcrossRun(w: World, steps: seq<Step>, k: Key)
    requires ValidRun(w, steps) && HasLeaf(w, k)
    requires forall s :: s in steps ==> !s.Restart? && s != RemoveLeaf(k)
    requires forall s :: s in steps && s.OtherWriter? ==> s.alias != CrdAlias(k)
    requires forall s :: s in steps && Target(s).Some? && Target(s).value != k ==>
               CrdAlias(Target(s).value) != CrdAlias(k)
    ensures HasLeaf(Run(w, steps), k)
    decreases |steps|
  {
    if steps != [] {
      assert steps[0] in steps;
      assert !Displaces(steps[0], k);
      LeafStaysExactly(w, steps[0], k);
      LeafStaysAcrossRun(Apply(w, steps[0]), steps[1..], k);
    }
  }

  /** Two resources get the same alias exactly when they are the same, or one namespace is the other
      extended by `-` and a part that the other name starts with. */
  lemma AliasCollision(a: Key, b: Key)
    ensures CrdAlias(a) == CrdAlias(b) <==>
            a == b || (exists mid :: Shifted(a, b, mid)) || (exists mid :: Shifted(b, a, mid))
  {
    var x, y := a.namespace + ("-" + a.name), b.namespace + ("-" + b.name);
    assert CrdAlias(a) == ALIAS_PREFIX + x && CrdAlias(b) == ALIAS_PREFIX + y;
    assert x == CrdAlias(a)[4..] && y == CrdAlias(b)[4..];
    if x == y {
      if |a.namespace| < |b.namespace| {
        ShiftedBy(b, a);
      } else if |b.namespace| < |a.namespace| {
        ShiftedBy(a, b);
      } else {
        assert a.namespace == x[..|a.namespace|] == b.namespace;
        assert a.name == x[|a.namespace| + 1..] == b.name;
      }
    }
    forall mid | Shifted(a, b, mid) ensures x == y { ShiftedSame(a, b, mid); }
    forall mid | Shifted(b, a, mid) ensures x == y { ShiftedSame(b, a, mid); }
  }

  ghost predicate Shifted(a: Key, b: Key, mid: string) {
    a.namespace == b.namespace + "-" + mid && b.name == mid + "-" + a.name
  }

  lemma ShiftedSame(a: Key, b: Key, mid: string)
    requires Shifted(a, b, mid)
    ensures a.namespace + ("-" + a.name) == b.namespace + ("-" + b.name)
  {
    assert a.namespace + ("-" + a.name) == b.namespace + ("-" + (mid + ("-" + a.name)));
    assert mid + "-" + a.name == mid + ("-" + a.name);
  }

  lemma ShiftedBy(a: Key, b: Key)
    requires |b.namespace| < |a.namespace|
    requires a.namespace + ("-" + a.name) == b.namespace + ("-" + b.name)
    ensures exists mid :: Shifted(a, b, mid)
  {
    var x, n, m := a.namespace + ("-" + a.name), |b.namespace|, |a.namespace|;
    var mid := x[n + 1..m];
    assert a.namespace == x[..m] && b.namespace == x[..n] && b.name == x[n + 1..] && a.name == x[m + 1..];
    assert x[n] == '-' && x[m] == '-';
    assert x[..m] == x[..n] + [x[n]] + mid;
    assert x[n + 1..] == mid + [x[m]] + x[m + 1..];
    assert Shifted(a, b, mid);
  }

  /** So a live resource loses its leaf, untouched itself, when one with a colliding name is
      cleaned up: the cleanup of `a-b`/`c` removes the leaf of `a`/`b-c`. */
  lemma CollisionTakesLeaf(w: World)
    requires var a, b := Key("a-b", "c"), Key("a", "b-c");
             Enabled(w, RemoveLeaf(a)) && HasLeaf(w, b)
    ensures var a, b := Key("a-b", "c"), Key("a", "b-c");
            !HasLeaf(Apply(w, RemoveLeaf(a)), b) && Apply(w, RemoveLeaf(a)).At(b) == w.At(b)
  {
    var a, b := Key("a-b", "c"), Key("a", "b-c");
    assert Shifted(a, b, "b");
    AliasCollision(a, b);
    LeafStaysExactly(w, RemoveLeaf(a), b);
  }

  // ---------- One reconcile call ----------

  datatype Action = AwaitChange | Requeue(seconds: nat)
  datatype ReconcileError = InvalidTransport(name: string) | Kube

  /** The steps of a call that starts now and is not interleaved with anything. */
  function CallSteps(w: World, k: Key, reaches: bool): seq<Step>
    requires Enabled(w, Begin(k))
  {
    var obj := w.At(k).log[w.At(k).seen];
    if obj.value.deleting then
      if Held(obj) then [Begin(k), RemoveLeaf(k), PatchFinalizers(k, reaches)] else [Begin(k), Finish(k)]
    else if !Held(obj) then [Begin(k), PatchFinalizers(k, reaches)]
    else if ConfigFor(k, obj.value.spec).Some? then [Begin(k), AddLeaf(k)]
    else [Begin(k), Finish(k)]
  }

  lemma UnfoldTwo(w: World, a: Step, b: Step)
    requires Enabled(w, a) && Enabled(Apply(w, a), b)
    ensures ValidRun(w, [a, b]) && Run(w, [a, b]) == Apply(Apply(w, a), b)
  {
    assert [a, b][1..] == [b] && [b][1..] == [];
    var w1 := Apply(w, a);
    assert ValidRun(w1, [b]) && Run(w1, [b]) == Apply(w1, b) by {
      assert ValidRun(Apply(w1, b), []);
    }
  }

  lemma UnfoldThree(w: World, a: Step, b: Step, c: Step)
    requires Enabled(w, a) && Enabled(Apply(w, a), b) && Enabled(Apply(Apply(w, a), b), c)
    ensures ValidRun(w, [a, b, c]) && Run(w, [a, b, c]) == Apply(Apply(Apply(w, a), b), c)
  {
    assert [a, b, c][1..] == [b, c];
    UnfoldTwo(Apply(w, a), b, c);
  }

  /** The version an uninterrupted call of now would be given. */
  function Seen(w: World, k: Key): Cr
    requires Enabled(w, Begin(k))
  {
    w.At(k).log[w.At(k).seen].value
  }

  predicate PatchTaken(w: World, k: Key, reaches: bool)
    requires Enabled(w, Begin(k))
  {
    reaches && PatchAccepted(w.At(k).Current(), WantedFinalizers(Seen(w, k)))
  }

  /** The API server's side of a call's patch. */
  function Patched(w: World, k: Key, reaches: bool): World
    requires Enabled(w, Begin(k))
  {
    var r, fs := w.At(k), WantedFinalizers(Seen(w, k));
    if PatchTaken(w, k, reaches)
    then w.Put(k, r.Store(Some(r.Current().value.(finalizers := fs)))) else w
  }

  lemma AfterRemoval(w: World, k: Key) returns (w2: World)
    requires Enabled(w, Begin(k)) && Seen(w, k).deleting && FINALIZER in Seen(w, k).finalizers
    ensures Enabled(Apply(w, Begin(k)), RemoveLeaf(k)) && w2 == Apply(Apply(w, Begin(k)), RemoveLeaf(k))
    ensures w2 == World(w.api[k := w.At(k).(work := Working(w.At(k).seen, true))], w.registry - {CrdAlias(k)})
  {
    w2 := Apply(Apply(w, Begin(k)), RemoveLeaf(k));
  }

  lemma CleanupCall(w: World, k: Key, reaches: bool)
    requires Enabled(w, Begin(k)) && Seen(w, k).deleting && FINALIZER in Seen(w, k).finalizers
    ensures ValidRun(w, CallSteps(w, k, reaches))
    ensures Run(w, CallSteps(w, k, reaches)) == Patched(w, k, reaches).(registry := w.registry - {CrdAlias(k)})
  {
    var w2 := AfterRemoval(w, k);
    UnfoldThree(w, Begin(k), RemoveLeaf(k), PatchFinalizers(k, reaches));
    assert Apply(w2, PatchFinalizers(k, reaches)).api == Patched(w, k, reaches).api;
  }

  lemma AdoptCall(w: World, k: Key, reaches: bool)
    requires Enabled(w, Begin(k)) && !Seen(w, k).deleting && FINALIZER !in Seen(w, k).finalizers
    ensures ValidRun(w, CallSteps(w, k, reaches))
    ensures Run(w, CallSteps(w, k, reaches)) == Patched(w, k, reaches)
  {
    var w1 := Apply(w, Begin(k));
    assert w1.At(k) == w.At(k).(work := Working(w.At(k).seen, false));
    UnfoldTwo(w, Begin(k), PatchFinalizers(k, reaches));
    assert Apply(w1, PatchFinalizers(k, reaches)).api == Patched(w, k, reaches).api;
  }

  lemma InstallCall(w: World, k: Key, reaches: bool)
    requires Enabled(w, Begin(k)) && !Seen(w, k).deleting && FINALIZER in Seen(w, k).finalizers
    ensures ValidRun(w, CallSteps(w, k, reaches))
    ensures Run(w, CallSteps(w, k, reaches)) ==
            match ConfigFor(k, Seen(w, k).spec)
            case Some(config) => w.(registry := w.registry[CrdAlias(k) := Leaf(Some(k), config)])
            case None => w
  {
    var w1 := Apply(w, Begin(k));
    assert w1.At(k) == w.At(k).(work := Working(w.At(k).seen, false));
    var s := if ConfigFor(k, Seen(w, k).spec).Some? then AddLeaf(k) else Finish(k);
    UnfoldTwo(w, Begin(k), s);
    assert Apply(w1, s).api == w.api;
  }

  lemma IdleCall(w: World, k: Key, reaches: bool)
    requires Enabled(w, Begin(k)) && Seen(w, k).deleting && FINALIZER !in Seen(w, k).finalizers
    ensures ValidRun(w, CallSteps(w, k, reaches))
    ensures Run(w, CallSteps(w, k, reaches)) == w
  {
    var w1 := Apply(w, Begin(k));
    assert w1.At(k) == w.At(k).(work := Working(w.At(k).seen, false));
    UnfoldTwo(w, Begin(k), Finish(k));
    assert Apply(w1, Finish(k)).api == w.api;
  }

  /** Deletion completes: once the view has the deletion, one call removes the leaf and lets the API
      server drop the object. */
  lemma DeletionCleansUp(w: World, k: Key)
    requires var r := w.At(k);
             r.WellFormed() && r.work.Idle? && Ready(r.Current()) && r.Current().value.finalizers == [FINALIZER]
    ensures Enabled(w, UserDelete(k))
    ensures var w1 := Apply(w, UserDelete(k));
            && Enabled(w1, ViewAdvance(k, |w.At(k).log|))
            && var w2 := Apply(w1, ViewAdvance(k, |w.At(k).log|));
            && Enabled(w2, Begin(k)) && ValidRun(w2, CallSteps(w2, k, true))
            && var w3 := Run(w2, CallSteps(w2, k, true));
            && Enabled(w3, Collect(k))
            && var w4 := Apply(w3, Collect(k));
            w4.At(k).Current() == None && CrdAlias(k) !in w4.registry
  {
    var w1 := Apply(w, UserDelete(k));
    var w2 := Apply(w1, ViewAdvance(k, |w.At(k).log|));
    assert Dying(w2.At(k).log[w2.At(k).seen]);
    CleanupCall(w2, k, true);
    assert WithoutOurs([FINALIZER]) == [];
  }

  // ---------- What a quiet controller arrives at ----------

  lemma {:induction false} RunConcat(w: World, a: seq<Step>, b: seq<Step>)
    requires ValidRun(w, a) && ValidRun(Run(w, a), b)
    ensures ValidRun(w, a + b) && Run(w, a + b) == Run(Run(w, a), b)
    decreases |a|
  {
    if a == [] {
      assert a + b == b;
    } else {
      assert (a + b)[1..] == a[1..] + b;
      RunConcat(Apply(w, a[0]), a[1..], b);
    }
  }

  lemma OneStep(w: World, s: Step)
    requires Enabled(w, s)
    ensures ValidRun(w, [s]) && Run(w, [s]) == Apply(w, s)
  {
    assert [s][1..] == [];
    assert ValidRun(Apply(w, s), []);
  }

  /** The view of a resource catches up with the API server. */
  function CatchUp(r: Resource, k: Key): seq<Step> {
    if r.seen < |r.log| - 1 then [ViewAdvance(k, |r.log| - 1)] else []
  }

  predicate Rests(w: World, k: Key) {
    k in w.api && w.At(k).WellFormed() && w.At(k).work.Idle? && w.At(k).Current().Some?
  }

  /** The world once the view of `k` has caught up. */
  function CaughtUp(w: World, k: Key): World
    requires Rests(w, k)
  {
    w.Put(k, w.At(k).(seen := |w.At(k).log| - 1))
  }

  lemma CatchUpRun(w: World, k: Key)
    requires Rests(w, k)
    ensures ValidRun(w, CatchUp(w.At(k), k)) && Run(w, CatchUp(w.At(k), k)) == CaughtUp(w, k)
    ensures Enabled(CaughtUp(w, k), Begin(k)) && Some(Seen(CaughtUp(w, k), k)) == w.At(k).Current()
  {
    if w.At(k).seen < |w.At(k).log| - 1 {
      OneStep(w, ViewAdvance(k, |w.At(k).log| - 1));
    } else {
      assert CaughtUp(w, k).api == w.api;
    }
  }

  /** The view catches up, and then one call runs whose patch, if it makes one, reaches the API server. */
  function Round(w: World, k: Key): seq<Step>
    requires Rests(w, k)
  {
    CatchUpRun(w, k);
    CatchUp(w.At(k), k) + CallSteps(CaughtUp(w, k), k, true)
  }

  /** Terminating, and no longer held by our finalizer. */
  predicate Leaving(v: Option<Cr>) {
    v.Some? && v.value.deleting && !Held(v)
  }

  /** A round on a terminating resource with our finalizer: both are gone. */
  lemma CleanupRound(w: World, k: Key)
    requires Rests(w, k) && Dying(w.At(k).Current())
    ensures ValidRun(w, Round(w, k))
    ensures var v := Run(w, Round(w, k)); CrdAlias(k) !in v.registry && Rests(v, k) && Leaving(v.At(k).Current())
  {
    CatchUpRun(w, k);
    var c := CaughtUp(w, k);
    CleanupCall(c, k, true);
    RunConcat(w, CatchUp(w.At(k), k), CallSteps(c, k, true));
  }

  /** A round on one without our finalizer changes nothing. */
  lemma IdleRound(w: World, k: Key)
    requires Rests(w, k) && Leaving(w.At(k).Current())
    ensures ValidRun(w, Round(w, k)) && Run(w, Round(w, k)) == CaughtUp(w, k)
  {
    CatchUpRun(w, k);
    IdleCall(CaughtUp(w, k), k, true);
    RunConcat(w, CatchUp(w.At(k), k), CallSteps(CaughtUp(w, k), k, true));
  }

  /** A round on a live resource without our finalizer sets it. */
  lemma AdoptRound(w: World, k: Key)
    requires Rests(w, k) && !w.At(k).Current().value.deleting && !Held(w.At(k).Current())
    ensures ValidRun(w, Round(w, k))
    ensures var v := Run(w, Round(w, k));
            && v.registry == w.registry && Rests(v, k) && Ready(v.At(k).Current())
            && v.At(k).Current().value.spec == w.At(k).Current().value.spec
  {
    CatchUpRun(w, k);
    var c := CaughtUp(w, k);
    AdoptCall(c, k, true);
    RunConcat(w, CatchUp(w.At(k), k), CallSteps(c, k, true));
  }

  /** A round on a live resource with our finalizer gives it its leaf. */
  lemma InstallRound(w: World, k: Key)
    requires Rests(w, k) && Ready(w.At(k).Current())
    ensures ValidRun(w, Round(w, k))
    ensures var v, config := Run(w, Round(w, k)), ConfigFor(k, w.At(k).Current().value.spec);
            && Rests(v, k) && v.At(k).Current() == w.At(k).Current()
            && v.registry == if config.Some? then w.registry[CrdAlias(k) := Leaf(Some(k), config.value)] else w.registry
  {
    CatchUpRun(w, k);
    var c := CaughtUp(w, k);
    InstallCall(c, k, true);
    RunConcat(w, CatchUp(w.At(k), k), CallSteps(c, k, true));
  }

  /** What the controller is to bring about for a resource: for a live one our finalizer and, if its transport is
      valid, a leaf with its present configuration; for a terminating one neither. */
  predicate Arrived(w: World, k: Key, cr: Cr) {
    && Rests(w, k)
    && (if cr.deleting then !HasLeaf(w, k) && !Held(w.At(k).Current())
        else
          && Ready(w.At(k).Current()) && w.At(k).Current().value.spec == cr.spec
          && (cr.spec.transport == "http-post" || cr.spec.transport == "streamable-http" ==>
                HasLeaf(w, k) && Describes(w.registry[CrdAlias(k)].config, k, cr.spec)))
  }

  /** What the first round has done: only the leaf of a live resource may be missing. */
  predicate OnTheWay(w: World, k: Key, cr: Cr) {
    && Rests(w, k)
    && if cr.deleting then Leaving(w.At(k).Current()) && !HasLeaf(w, k)
       else Ready(w.At(k).Current()) && w.At(k).Current().value.spec == cr.spec
  }

  lemma FirstRoundWhenDeleting(w: World, k: Key)
    requires Rests(w, k) && w.At(k).Current().value.deleting && (HasLeaf(w, k) ==> Held(w.At(k).Current()))
    ensures ValidRun(w, Round(w, k)) && OnTheWay(Run(w, Round(w, k)), k, w.At(k).Current().value)
  {
    if Held(w.At(k).Current()) { CleanupRound(w, k); } else { IdleRound(w, k); }
  }

  lemma FirstRoundWhenLive(w: World, k: Key)
    requires Rests(w, k) && !w.At(k).Current().value.deleting
    ensures ValidRun(w, Round(w, k)) && OnTheWay(Run(w, Round(w, k)), k, w.At(k).Current().value)
  {
    if Held(w.At(k).Current()) { InstallRound(w, k); } else { AdoptRound(w, k); }
  }

  lemma SecondRound(w: World, k: Key, cr: Cr)
    requires OnTheWay(w, k, cr)
    ensures ValidRun(w, Round(w, k)) && Arrived(Run(w, Round(w, k)), k, cr)
  {
    ConfigDescribes(k, cr.spec);
    if cr.deleting { IdleRound(w, k); } else { InstallRound(w, k); }
  }

  lemma LeafMeansHeld(w: World, k: Key)
    requires Inv(w) && k in w.api
    ensures HasLeaf(w, k) ==> Held(w.At(k).Current())
  {
    assert ResourceInv(w.api[k]);
    if HasLeaf(w, k) {
      assert LeafIsOwned(w, CrdAlias(k));
    }
  }

  /** Theorem: from every reachable world, once the users leave a resource alone and patches get through, two
      undisturbed rounds of the controller bring about what is to be. */
  lemma TwoRoundsArrive(w: World, k: Key)
    requires Inv(w) && Rests(w, k)
    ensures ValidRun(w, Round(w, k)) && Rests(Run(w, Round(w, k)), k)
    ensures var v := Run(w, Round(w, k));
            ValidRun(v, Round(v, k)) && Arrived(Run(v, Round(v, k)), k, w.At(k).Current().value)
  {
    LeafMeansHeld(w, k);
    if w.At(k).Current().value.deleting { FirstRoundWhenDeleting(w, k); } else { FirstRoundWhenLive(w, k); }
    SecondRound(Run(w, Round(w, k)), k, w.At(k).Current().value);
  }

  // ---------- The collision happens ----------

  /** All steps are on this resource. */
  predicate Only(steps: seq<Step>, k: Key) {
    forall s :: s in steps ==> Target(s) == Some(k)
  }

  /** Steps on one resource leave the others alone. */
  lemma {:induction false} OthersUntouched(w: World, steps: seq<Step>, k: Key, other: Key)
    requires ValidRun(w, steps) && k != other
    requires Only(steps, k)
    ensures Run(w, steps).At(other) == w.At(other)
    decreases |steps|
  {
    if steps != [] {
      assert steps[0] in steps;
      OthersUntouched(Apply(w, steps[0]), steps[1..], k, other);
    }
  }

  lemma RoundTargets(w: World, k: Key)
    requires Rests(w, k)
    ensures Only(Round(w, k), k)
  {
    CatchUpRun(w, k);
  }

  lemma TwoRoundsRun(w: World, k: Key) returns (steps: seq<Step>)
    requires Inv(w) && Rests(w, k)
    ensures ValidRun(w, steps) && Only(steps, k) && Arrived(Run(w, steps), k, w.At(k).Current().value)
  {
    TwoRoundsArrive(w, k);
    var v := Run(w, Round(w, k));
    RoundTargets(w, k);
    RoundTargets(v, k);
    RunConcat(w, Round(w, k), Round(v, k));
    steps := Round(w, k) + Round(v, k);
  }

  /** A user creates a resource, and two rounds give it its leaf. */
  lemma CreateAndInstall(w: World, k: Key, spec: Spec) returns (steps: seq<Step>)
    requires Inv(w) && k !in w.api && ParseTransport(spec.transport).Some?
    ensures ValidRun(w, steps) && Only(steps, k)
    ensures var v := Run(w, steps); Rests(v, k) && Ready(v.At(k).Current()) && HasLeaf(v, k)
  {
    var create := UserCreate(k, spec, []);
    OneStep(w, create);
    StepKeepsInv(w, create);
    var rest := TwoRoundsRun(Apply(w, create), k);
    RunConcat(w, [create], rest);
    steps := [create] + rest;
  }

  lemma {:induction false} NeverNamed(w: World, steps: seq<Step>, k: Key, other: Key)
    requires ValidRun(w, steps) && k != other && other !in w.api
    requires Only(steps, k)
    ensures other !in Run(w, steps).api
    decreases |steps|
  {
    if steps != [] {
      assert steps[0] in steps;
      NeverNamed(Apply(w, steps[0]), steps[1..], k, other);
    }
  }

  /** A terminating resource with our finalizer comes to the removal of its leaf. */
  lemma DeleteAndBegin(w: World, k: Key) returns (steps: seq<Step>)
    requires Rests(w, k) && Ready(w.At(k).Current())
    ensures ValidRun(w, steps) && Only(steps, k)
    ensures Enabled(Run(w, steps), RemoveLeaf(k)) && Run(w, steps).registry == w.registry
  {
    var delete := UserDelete(k);
    OneStep(w, delete);
    var w1 := Apply(w, delete);
    CatchUpRun(w1, k);
    var c := CaughtUp(w1, k);
    OneStep(c, Begin(k));
    RunConcat(w1, CatchUp(w1.At(k), k), [Begin(k)]);
    var rest := CatchUp(w1.At(k), k) + [Begin(k)];
    RunConcat(w, [delete], rest);
    steps := [delete] + rest;
  }

  /** Theorem: the collision happens. Some run from the empty world ends with the cleanup of `a-b`/`c` about to remove
      the leaf of `a`/`b-c`, which is live and has our finalizer. */
  lemma CollisionIsReachable(spec: Spec) returns (steps: seq<Step>)
    requires ParseTransport(spec.transport).Some?
    ensures ValidRun(INITIAL, steps)
    ensures var w, a, b := Run(INITIAL, steps), Key("a-b", "c"), Key("a", "b-c");
            Enabled(w, RemoveLeaf(a)) && HasLeaf(w, b) && Rests(w, b) && Ready(w.At(b).Current())
  {
    var a, b := Key("a-b", "c"), Key("a", "b-c");
    var first := CreateAndInstall(INITIAL, a, spec);
    var w1 := Run(INITIAL, first);
    NeverNamed(INITIAL, first, a, b);
    RunKeepsInv(INITIAL, first);
    var second := CreateAndInstall(w1, b, spec);
    var w2 := Run(w1, second);
    OthersUntouched(w1, second, b, a);
    var third := DeleteAndBegin(w2, a);
    OthersUntouched(w2, third, a, b);
    RunConcat(w1, second, third);
    RunConcat(INITIAL, first, second + third);
    steps := first + (second + third);
  }

  /** The controller's process: the registry it fills and the API server it patches. */
  class Controller {
    var api: map<Key, Resource>
    var registry: map<string, Leaf>

    constructor ()
      ensures Snapshot() == INITIAL
    {
      api, registry := map[], map[];
    }

    function Snapshot(): World
      reads this
    {
      World(api, registry)
    }

    /** A merge patch of the finalizer list. `applied` says whether the request gets through to the API server,
        `answered` whether its answer gets back. */
    method PatchFinalizerList(k: Key, finalizers: seq<string>, applied: bool, answered: bool) returns (ok: bool)
      requires Snapshot().At(k).WellFormed()
      modifies this`api
      ensures var taken := applied && PatchAccepted(old(Snapshot()).At(k).Current(), finalizers);
              && (ok <==> taken && answered)
              && api == if taken
                        then old(api)[k := old(Snapshot()).At(k).Store(
                               Some(old(Snapshot()).At(k).Current().value.(finalizers := finalizers)))]
                        else old(api)
    {
      var r := Snapshot().At(k);
      var taken := applied && PatchAccepted(r.Current(), finalizers);
      if taken {
        api := api[k := r.Store(Some(r.Current().value.(finalizers := finalizers)))];
      }
      ok := taken && answered;
    }

    /** One reconcile call. It leaves the world as the protocol's steps do, so the run theorems
        cover it; the result says when the runtime will call again. A patch whose answer is lost
        has been applied all the same, and the call fails. */
    method Reconcile(k: Key, applied: bool, answered: bool) returns (result: Result<Action, ReconcileError>)
      requires Enabled(Snapshot(), Begin(k))
      modifies this
      ensures ValidRun(old(Snapshot()), CallSteps(old(Snapshot()), k, applied))
      ensures Snapshot() == Run(old(Snapshot()), CallSteps(old(Snapshot()), k, applied))
      ensures Snapshot().At(k).WellFormed()
      ensures result == Ok(Requeue(300)) ==>
                && HasLeaf(Snapshot(), k)
                && Describes(registry[CrdAlias(k)].config, k, Seen(old(Snapshot()), k).spec)
      ensures var obj := Some(Seen(old(Snapshot()), k));
              var patched := PatchTaken(old(Snapshot()), k, applied) && answered;
              && (result == Ok(Requeue(300)) <==> Ready(obj) && ParseTransport(obj.value.spec.transport).Some?)
              && (result.Err? && result.error.InvalidTransport? <==>
                  Ready(obj) && ParseTransport(obj.value.spec.transport).None?)
              && (result == Ok(Requeue(1)) <==> !obj.value.deleting && !Held(obj) && patched)
              && (result == Ok(AwaitChange) <==> obj.value.deleting && (Held(obj) ==> patched))
              && (result == Err(Kube) <==> (obj.value.deleting <==> Held(obj)) && !patched)
    {
      ghost var w := Snapshot();
      var alias := CrdAlias(k);
      var obj := api[k].log[api[k].seen].value;
      if obj.deleting {
        if FINALIZER in obj.finalizers {
          CleanupCall(w, k, applied);
          registry := registry - {alias};
          var ok := PatchFinalizerList(k, WithoutOurs(obj.finalizers), applied, answered);
          return if ok then Ok(AwaitChange) else Err(Kube);
        }
        IdleCall(w, k, applied);
        return Ok(AwaitChange);
      }
      if FINALIZER !in obj.finalizers {
        AdoptCall(w, k, applied);
        var ok := PatchFinalizerList(k, obj.finalizers + [FINALIZER], applied, answered);
        return if ok then Ok(Requeue(1)) else Err(Kube);
      }
      InstallCall(w, k, applied);
      ConfigDescribes(k, obj.spec);
      match ParseTransport(obj.spec.transport)
      case None =>
        return Err(InvalidTransport(obj.spec.transport));
      case Some(transport) =>
        var config := LeafConfig(alias, obj.spec.url, transport, obj.spec.authToken, obj.spec.authTokenFile,
                                 obj.spec.timeoutSeconds, obj.spec.tags + ["crd-discovered"]);
        registry := registry[alias := Leaf(Some(k), config)];
        return Ok(Requeue(300));
    }
  }
}
