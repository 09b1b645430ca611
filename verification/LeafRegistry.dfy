/** The shared leaf registry, and the two loops that bring it in line with a source: DNS discovery, which
    owns the aliases with its prefix, and the reload of the configuration file. */
module LeafRegistry {
  import opened Common
  import opened Namespacing

  datatype ServerConfig = ServerConfig(
    alias: string,
    url: string,
    authToken: Option<string>,
    authTokenFile: Option<string>,
    transport: Transport,
    timeoutSeconds: Option<nat>,
    others: seq<string>
  )

  /** A registered leaf. Two entries are the same only if they are the same object. */
  class LeafEntry {
    const config: ServerConfig

    constructor (config: ServerConfig)
      ensures this.config == config
    {
      this.config := config;
    }
  }

  type Leaves = map<string, LeafEntry>

  class Registry {
    var leaves: Leaves

    constructor ()
      ensures leaves == map[]
    {
      leaves := map[];
    }

    method AddLeaf(alias: string, entry: LeafEntry) returns (prior: Option<LeafEntry>)
      modifies this
      ensures leaves == old(leaves)[alias := entry]
      ensures prior == Lookup(old(leaves), alias)
    {
      prior := Lookup(leaves, alias);
      leaves := leaves[alias := entry];
    }

    method RemoveLeaf(alias: string) returns (removed: Option<LeafEntry>)
      modifies this
      ensures leaves == old(leaves) - {alias}
      ensures removed == Lookup(old(leaves), alias)
    {
      removed := Lookup(leaves, alias);
      leaves := leaves - {alias};
    }
  }

  function Lookup(leaves: Leaves, alias: string): Option<LeafEntry> {
    if alias in leaves then Some(leaves[alias]) else None
  }

  // ---------- Other writers ----------

  /** What another source does to the registry: a REST call or a custom resource. */
  datatype Action = Add(alias: string, entry: LeafEntry) | Remove(alias: string)

  function Act(leaves: Leaves, action: Action): Leaves {
    match action
    case Add(alias, entry) => leaves[alias := entry]
    case Remove(alias) => leaves - {alias}
  }

  function ActAll(leaves: Leaves, actions: seq<Action>): Leaves {
    if actions == [] then leaves else Act(ActAll(leaves, actions[..|actions| - 1]), actions[|actions| - 1])
  }

  const DNS_PREFIX := "dns-"

  predicate IsDns(alias: string) {
    DNS_PREFIX <= alias
  }

  function DnsPart(leaves: Leaves): Leaves {
    map a | a in leaves && IsDns(a) :: leaves[a]
  }

  function OtherPart(leaves: Leaves): Leaves {
    map a | a in leaves && !IsDns(a) :: leaves[a]
  }

  predicate Foreign(actions: seq<Action>) {
    forall i :: 0 <= i < |actions| ==> !IsDns(actions[i].alias)
  }

  /** Actions on foreign aliases leave the DNS part alone, and what they do to the rest depends on the rest only. */
  lemma {:induction false} ForeignActionsStayApart(leaves: Leaves, same: Leaves, actions: seq<Action>)
    requires Foreign(actions) && OtherPart(leaves) == OtherPart(same)
    ensures DnsPart(ActAll(leaves, actions)) == DnsPart(leaves)
    ensures OtherPart(ActAll(leaves, actions)) == OtherPart(ActAll(same, actions))
    decreases |actions|
  {
    if actions != [] {
      var front, last := actions[..|actions| - 1], actions[|actions| - 1];
      ForeignActionsStayApart(leaves, same, front);
      assert !IsDns(last.alias);
      ActOnPart(ActAll(leaves, front), last);
      ActOnPart(ActAll(same, front), last);
    }
  }

  lemma PartIsForeign(actions: seq<Action>, front: seq<Action>, part: seq<Action>)
    requires Foreign(actions) && front + part <= actions
    ensures Foreign(part)
  {
    forall i | 0 <= i < |part|
      ensures !IsDns(part[i].alias)
    {
      assert part[i] == (front + part)[|front| + i] == actions[|front| + i];
    }
  }

  /** What has been added to a sequence is added to its tail. */
  lemma Lengthened(a: seq<Action>, b: seq<Action>, n: nat)
    requires a <= b && n <= |a|
    ensures b == a + b[|a|..] && b[n..] == a[n..] + b[|a|..]
  {
  }

  lemma ActOnPart(leaves: Leaves, action: Action)
    requires !IsDns(action.alias)
    ensures DnsPart(Act(leaves, action)) == DnsPart(leaves)
    ensures OtherPart(Act(leaves, action)) == Act(OtherPart(leaves), action)
  {
  }

  lemma {:induction false} ActAllConcat(leaves: Leaves, a: seq<Action>, b: seq<Action>)
    ensures ActAll(leaves, a + b) == ActAll(ActAll(leaves, a), b)
    decreases |b|
  {
    if b == [] {
      assert a + b == a;
    } else {
      var front := b[..|b| - 1];
      assert (a + b)[..|a + b| - 1] == a + front;
      ActAllConcat(leaves, a, front);
    }
  }

  function Flatten(turns: seq<seq<Action>>): seq<Action> {
    if turns == [] then [] else turns[0] + Flatten(turns[1..])
  }

  /** The other sources, which get a turn whenever a loop awaits the registry. */
  class Others {
    var turns: seq<seq<Action>>
    /** All actions, and those taken so far. */
    ghost const script: seq<Action>
    ghost var taken: seq<Action>

    ghost predicate Valid()
      reads this
    {
      script == taken + Flatten(turns)
    }

    constructor (turns: seq<seq<Action>>)
      ensures Valid() && script == Flatten(turns) && taken == []
    {
      this.turns, this.script, this.taken := turns, Flatten(turns), [];
    }

    method Turn(registry: Registry)
      requires Valid()
      modifies this, registry
      ensures Valid() && old(taken) <= taken <= script
      ensures registry.leaves == ActAll(old(registry.leaves), taken[|old(taken)|..])
    {
      if turns == [] {
        return;
      }
      ghost var before := taken;
      var actions := turns[0];
      assert script == before + actions + Flatten(turns[1..]);
      turns := turns[1..];
      taken := taken + actions;
      assert taken[|before|..] == actions;
      for i := 0 to |actions|
        modifies registry
        invariant registry.leaves == ActAll(old(registry.leaves), actions[..i])
      {
        assert actions[..i + 1][..i] == actions[..i];
        match actions[i] {
          case Add(alias, entry) =>
            var _ := registry.AddLeaf(alias, entry);
          case Remove(alias) =>
            var _ := registry.RemoveLeaf(alias);
        }
      }
      assert actions[..|actions|] == actions;
    }
  }

  // ---------- DNS discovery ----------

  datatype SrvRecord = SrvRecord(port: nat, target: string)

  datatype DnsSettings = DnsSettings(scheme: string, urlPath: string, transport: Transport)

  function TrimDots(s: string): string {
    if s != "" && s[|s| - 1] == '.' then TrimDots(s[..|s| - 1]) else s
  }

  predicate IsAliasChar(c: char) {
    'a' <= c <= 'z' || '0' <= c <= '9' || c == '-'
  }

  function LowerAscii(c: char): char {
    if 'A' <= c <= 'Z' then (c as int + 32) as char else c
  }

  function CleanChar(c: char): (r: char)
    ensures IsAliasChar(r)
  {
    if IsAliasChar(LowerAscii(c)) then LowerAscii(c) else '-'
  }

  function SanitizeAlias(target: string): string {
    var trimmed := TrimDots(target);
    DNS_PREFIX + seq(|trimmed|, i requires 0 <= i < |trimmed| => CleanChar(trimmed[i]))
  }

  /** A sanitized alias is owned by DNS discovery, and tools under it can be routed. */
  lemma SanitizedIsRoutable(target: string)
    ensures IsDns(SanitizeAlias(target)) && Routable(SanitizeAlias(target))
  {
    var alias := SanitizeAlias(target);
    assert alias[..|DNS_PREFIX|] == DNS_PREFIX;
    assert forall i :: 0 <= i < |alias| ==> IsAliasChar(alias[i]);
    assert alias[0] == 'd' && FEDERATION[0] == 'f';
  }

  /** The aliases of DNS discovery. */
  lemma DnsAliases(alias: string)
    ensures IsDns(alias) <==> |alias| >= 4 && alias[0] == 'd' && alias[1] == 'n' && alias[2] == 's' && alias[3] == '-'
  {
    if |alias| >= 4 { assert alias[..4] == [alias[0], alias[1], alias[2], alias[3]]; }
  }

  /** The target up to `n` is what its trailing dots leave. */
  predicate DotsTrimmedAt(target: string, n: nat) {
    && n <= |target|
    && (n > 0 ==> target[n - 1] != '.')
    && forall i :: n <= i < |target| ==> target[i] == '.'
  }

  lemma {:induction false} TrimDotsIs(target: string, n: nat)
    requires DotsTrimmedAt(target, n)
    ensures TrimDots(target) == target[..n]
    decreases |target|
  {
    if n < |target| {
      TrimDotsIs(target[..|target| - 1], n);
      assert target[..|target| - 1][..n] == target[..n];
    } else {
      assert target[..n] == target;
    }
  }

  /** Theorem: an alias is `dns-` and then, for each character of the target less its trailing dots, one character:
      lower-case letters, digits and hyphens stay, upper-case letters become lower-case ones, all others hyphens. */
  lemma SanitizedCharacters(target: string, n: nat)
    requires DotsTrimmedAt(target, n)
    ensures var alias := SanitizeAlias(target);
            && |alias| == 4 + n && alias[..4] == "dns-"
            && forall i :: 0 <= i < n ==>
                 var c := target[i];
                 alias[4 + i] == if 'a' <= c <= 'z' || '0' <= c <= '9' || c == '-' then c
                                 else if 'A' <= c <= 'Z' then (c as int - 'A' as int + 'a' as int) as char
                                 else '-'
  {
    TrimDotsIs(target, n);
  }

  /** A trailing dot makes no difference. */
  lemma TrailingDotIsIgnored(target: string)
    ensures SanitizeAlias(target + ".") == SanitizeAlias(target)
  {
    assert (target + ".")[..|target + "."| - 1] == target;
  }

  predicate IsPlain(target: string) {
    forall i :: 0 <= i < |target| ==> 'a' <= target[i] <= 'z' || '0' <= target[i] <= '9' || target[i] == '-'
  }

  /** Targets of lower-case letters, digits and hyphens keep their characters, so that different ones stay apart. */
  lemma PlainTargetsStayApart(a: string, b: string)
    requires IsPlain(a) && IsPlain(b)
    ensures SanitizeAlias(a) == "dns-" + a
    ensures SanitizeAlias(a) == SanitizeAlias(b) <==> a == b
  {
    PlainTargetIsKept(a);
    PlainTargetIsKept(b);
    assert ("dns-" + a)[4..] == a && ("dns-" + b)[4..] == b;
  }

  lemma PlainTargetIsKept(a: string)
    requires IsPlain(a)
    ensures SanitizeAlias(a) == "dns-" + a
  {
    SanitizedCharacters(a, |a|);
    var alias := SanitizeAlias(a);
    assert alias == alias[..4] + alias[4..];
    forall i | 0 <= i < |a|
      ensures alias[4..][i] == a[i]
    {
      assert alias[4 + i] == a[i];
    }
  }

  /** A map from pairs: the last pair of a key counts. */
  function Collect<K, V>(pairs: seq<(K, V)>): map<K, V> {
    if pairs == [] then map[] else Collect(pairs[..|pairs| - 1])[pairs[|pairs| - 1].0 := pairs[|pairs| - 1].1]
  }

  predicate IsLastFor<K(==), V>(pairs: seq<(K, V)>, key: K, i: nat)
    requires i < |pairs|
  {
    pairs[i].0 == key && forall j :: i < j < |pairs| ==> pairs[j].0 != key
  }

  lemma {:induction false} CollectIsLast<K, V>(pairs: seq<(K, V)>, key: K)
    ensures key in Collect(pairs) <==> exists i :: 0 <= i < |pairs| && pairs[i].0 == key
    ensures key in Collect(pairs) ==>
              exists i: nat :: i < |pairs| && IsLastFor(pairs, key, i) && Collect(pairs)[key] == pairs[i].1
    decreases |pairs|
  {
    if pairs != [] {
      var n := |pairs| - 1;
      CollectIsLast(pairs[..n], key);
      if pairs[n].0 == key {
        assert IsLastFor(pairs, key, n);
      } else if key in Collect(pairs) {
        var i: nat :| i < n && IsLastFor(pairs[..n], key, i) && Collect(pairs[..n])[key] == pairs[..n][i].1;
        assert pairs[i] == pairs[..n][i];
        assert IsLastFor(pairs, key, i);
      }
    }
  }

  function Advertised(records: seq<SrvRecord>): seq<(string, SrvRecord)> {
    seq(|records|, i requires 0 <= i < |records| => (SanitizeAlias(records[i].target), records[i]))
  }

  /** The record each alias stands for. */
  function Desired(records: seq<SrvRecord>): map<string, SrvRecord> {
    Collect(Advertised(records))
  }

  /** Theorem: the record of an alias is the last one whose target has that alias. */
  lemma DesiredRecord(records: seq<SrvRecord>, alias: string)
    requires alias in Desired(records)
    ensures exists i: nat :: i < |records| && IsLastTarget(records, alias, i) && Desired(records)[alias] == records[i]
  {
    var pairs := Advertised(records);
    CollectIsLast(pairs, alias);
    var i: nat :| i < |pairs| && IsLastFor(pairs, alias, i) && Collect(pairs)[alias] == pairs[i].1;
    assert forall j :: 0 <= j < |records| ==> pairs[j] == (SanitizeAlias(records[j].target), records[j]);
    assert IsLastTarget(records, alias, i);
  }

  predicate IsLastTarget(records: seq<SrvRecord>, alias: string, i: nat)
    requires i < |records|
  {
    && SanitizeAlias(records[i].target) == alias
    && forall j :: i < j < |records| ==> SanitizeAlias(records[j].target) != alias
  }

  function Targets(records: seq<SrvRecord>): set<string> {
    set r | r in records :: SanitizeAlias(r.target)
  }

  /** The desired aliases are the sanitized targets. They are routable, and DNS discovery owns them. */
  lemma DesiredAliases(records: seq<SrvRecord>)
    ensures Desired(records).Keys == Targets(records)
    ensures forall a :: a in Desired(records) ==> IsDns(a) && Routable(a)
  {
    var pairs := Advertised(records);
    forall a
      ensures a in Desired(records) <==> a in Targets(records)
    {
      CollectIsLast(pairs, a);
      if a in Targets(records) {
        var r :| r in records && SanitizeAlias(r.target) == a;
        var i :| 0 <= i < |records| && records[i] == r;
        assert pairs[i].0 == a;
      }
    }
    forall a | a in Desired(records)
      ensures IsDns(a) && Routable(a)
    {
      var r :| r in records && SanitizeAlias(r.target) == a;
      SanitizedIsRoutable(r.target);
    }
  }

  function DnsConfig(settings: DnsSettings, alias: string, record: SrvRecord): ServerConfig {
    ServerConfig(alias, settings.scheme + "://" + record.target + ":" + Decimal(record.port) + settings.urlPath,
                 None, None, settings.transport, None, ["dns-discovered"])
  }

  function Decimal(n: nat): string {
    (if n < 10 then "" else Decimal(n / 10)) + [('0' as int + n % 10) as char]
  }

  lemma {:induction false} DecimalReadsBack(n: nat)
    ensures var d := Decimal(n);
            && |d| > 0 && (forall i :: 0 <= i < |d| ==> '0' <= d[i] <= '9') && Number(d) == n
            && (|d| > 1 ==> d[0] != '0')
  {
    var d := Decimal(n);
    if n >= 10 {
      DecimalReadsBack(n / 10);
      assert d[..|d| - 1] == Decimal(n / 10);
    } else {
      assert d[..|d| - 1] == "";
    }
  }

  /** A discovered leaf: its url, the default transport, its mark, and no secrets. */
  lemma NewLeafConfig(settings: DnsSettings, alias: string, record: SrvRecord)
    ensures var c, port := DnsConfig(settings, alias, record), Decimal(record.port);
            && (forall i :: 0 <= i < |port| ==> '0' <= port[i] <= '9') && Number(port) == record.port
            && c.url == settings.scheme + "://" + record.target + ":" + port + settings.urlPath
            && c.alias == alias && c.transport == settings.transport && c.others == ["dns-discovered"]
            && c.authToken == c.authTokenFile == None && c.timeoutSeconds == None
  {
    DecimalReadsBack(record.port);
  }

  /** The DNS part after a reconcile: tracked entries stay, new ones come from the records, the rest is gone. */
  ghost predicate Reconciled(before: Leaves, after: Leaves, settings: DnsSettings, records: seq<SrvRecord>) {
    && after.Keys == Desired(records).Keys
    && (forall a :: a in after && a in before ==> after[a] == before[a])
    && (forall a :: a in after && a !in before ==> after[a].config == DnsConfig(settings, a, Desired(records)[a]))
  }

  /** All desired aliases but those still to do are tracked, and nothing else has changed. */
  ghost predicate PartlyTracked(before: Leaves, dns: Leaves, settings: DnsSettings, desired: map<string, SrvRecord>,
                                todo: set<string>)
  {
    && dns.Keys == before.Keys + (desired.Keys - todo)
    && (forall a :: a in before ==> dns[a] == before[a])
    && forall a :: a in desired.Keys - todo - before.Keys ==> dns[a].config == DnsConfig(settings, a, desired[a])
  }

  lemma TrackStep(before: Leaves, dns: Leaves, settings: DnsSettings, desired: map<string, SrvRecord>,
                  todo: set<string>, alias: string, entry: LeafEntry)
    requires PartlyTracked(before, dns, settings, desired, todo)
    requires alias in todo && alias in desired && alias !in before
    requires entry.config == DnsConfig(settings, alias, desired[alias])
    ensures PartlyTracked(before, dns[alias := entry], settings, desired, todo - {alias})
  {
  }

  /** What the two parts say, alias by alias. */
  lemma PartsApart(before: Leaves, after: Leaves, alone: Leaves, targets: set<string>)
    requires DnsPart(after).Keys == targets && OtherPart(after) == OtherPart(alone)
    requires forall a :: a in DnsPart(after) && a in DnsPart(before) ==> DnsPart(after)[a] == DnsPart(before)[a]
    ensures forall a :: "dns-" <= a ==> (a in after <==> a in targets)
    ensures forall a :: "dns-" <= a && a in after && a in before ==> after[a] == before[a]
    ensures forall a :: !("dns-" <= a) ==> (a in after <==> a in alone) && (a in after ==> after[a] == alone[a])
  {
    forall a
      ensures "dns-" <= a ==> (a in after <==> a in targets)
      ensures "dns-" <= a && a in after && a in before ==> after[a] == before[a]
    {
      if "dns-" <= a {
        assert a in after <==> a in DnsPart(after);
        assert a in before <==> a in DnsPart(before);
      }
    }
    forall a
      ensures !("dns-" <= a) ==> (a in after <==> a in alone) && (a in after ==> after[a] == alone[a])
    {
      if !("dns-" <= a) {
        assert a in after <==> a in OtherPart(after);
        assert a in alone <==> a in OtherPart(alone);
        assert a in after ==> OtherPart(after)[a] == OtherPart(alone)[a];
      }
    }
  }

  lemma DnsWrite(leaves: Leaves, alias: string, entry: LeafEntry)
    requires IsDns(alias)
    ensures DnsPart(leaves[alias := entry]) == DnsPart(leaves)[alias := entry]
    ensures OtherPart(leaves[alias := entry]) == OtherPart(leaves)
  {
  }

  lemma DnsRemoval(leaves: Leaves, alias: string)
    requires IsDns(alias)
    ensures DnsPart(leaves - {alias}) == DnsPart(leaves) - {alias}
    ensures OtherPart(leaves - {alias}) == OtherPart(leaves)
  {
  }

  class DnsDiscovery {
    const registry: Registry
    const others: Others
    const settings: DnsSettings

    constructor (registry: Registry, others: Others, settings: DnsSettings)
      ensures this.registry == registry && this.others == others && this.settings == settings
    {
      this.registry, this.others, this.settings := registry, others, settings;
    }

    /** The others stay away from the aliases of DNS discovery. */
    ghost predicate OthersKeepAway()
      reads others
    {
      others.Valid() && Foreign(others.script)
    }

    /** The rest of the registry is what the actions since `n` alone make of it. */
    ghost predicate RestUntouched(start: Leaves, n: nat)
      reads registry, others
    {
      n <= |others.taken| && OtherPart(registry.leaves) == OtherPart(ActAll(start, others.taken[n..]))
    }

    /** An await: the other sources get a turn. */
    method Await(ghost start: Leaves, ghost n: nat)
      requires OthersKeepAway() && RestUntouched(start, n)
      modifies registry, others
      ensures OthersKeepAway() && RestUntouched(start, n) && old(others.taken) <= others.taken
      ensures DnsPart(registry.leaves) == DnsPart(old(registry.leaves))
    {
      ghost var before, taken := registry.leaves, others.taken;
      others.Turn(registry);
      ghost var more := others.taken[|taken|..];
      Lengthened(taken, others.taken, n);
      PartIsForeign(others.script, taken, more);
      ForeignActionsStayApart(before, ActAll(start, taken[n..]), more);
      ActAllConcat(start, taken[n..], more);
    }

    method Track(alias: string, record: SrvRecord, ghost start: Leaves, ghost n: nat)
      requires IsDns(alias) && OthersKeepAway() && RestUntouched(start, n)
      modifies registry, others
      ensures OthersKeepAway() && RestUntouched(start, n) && old(others.taken) <= others.taken
      ensures alias in registry.leaves && fresh(registry.leaves[alias])
      ensures registry.leaves[alias].config == DnsConfig(settings, alias, record)
      ensures DnsPart(registry.leaves) == DnsPart(old(registry.leaves))[alias := registry.leaves[alias]]
    {
      var entry := new LeafEntry(DnsConfig(settings, alias, record));
      Await(start, n);
      DnsWrite(registry.leaves, alias, entry);
      var _ := registry.AddLeaf(alias, entry);
    }

    method Prune(alias: string, ghost start: Leaves, ghost n: nat)
      requires IsDns(alias) && OthersKeepAway() && RestUntouched(start, n)
      modifies registry, others
      ensures OthersKeepAway() && RestUntouched(start, n) && old(others.taken) <= others.taken
      ensures DnsPart(registry.leaves) == DnsPart(old(registry.leaves)) - {alias}
    {
      Await(start, n);
      DnsRemoval(registry.leaves, alias);
      var _ := registry.RemoveLeaf(alias);
    }

    /** Adds every desired alias that is not tracked yet. */
    method AddMissing(desired: map<string, SrvRecord>, existing: set<string>, ghost start: Leaves, ghost n: nat)
      requires forall a :: a in desired ==> IsDns(a)
      requires OthersKeepAway() && RestUntouched(start, n) && existing == DnsPart(registry.leaves).Keys
      modifies registry, others
      ensures OthersKeepAway() && RestUntouched(start, n) && old(others.taken) <= others.taken
      ensures var before, after := DnsPart(old(registry.leaves)), DnsPart(registry.leaves);
              && after.Keys == existing + desired.Keys
              && (forall a :: a in existing ==> after[a] == before[a])
              && forall a :: a in desired.Keys - existing ==> after[a].config == DnsConfig(settings, a, desired[a])
    {
      ghost var before := DnsPart(registry.leaves);
      var todo := desired.Keys;
      while todo != {}
        invariant todo <= desired.Keys
        invariant OthersKeepAway() && RestUntouched(start, n) && old(others.taken) <= others.taken
        invariant PartlyTracked(before, DnsPart(registry.leaves), settings, desired, todo)
        decreases todo
      {
        var alias :| alias in todo;
        if alias !in existing {
          ghost var dns := DnsPart(registry.leaves);
          Track(alias, desired[alias], start, n);
          TrackStep(before, dns, settings, desired, todo, alias, registry.leaves[alias]);
        }
        todo := todo - {alias};
      }
    }

    /** Removes these aliases. */
    method PruneGone(gone: set<string>, ghost start: Leaves, ghost n: nat)
      requires forall a :: a in gone ==> IsDns(a)
      requires OthersKeepAway() && RestUntouched(start, n)
      modifies registry, others
      ensures OthersKeepAway() && RestUntouched(start, n) && old(others.taken) <= others.taken
      ensures DnsPart(registry.leaves) == DnsPart(old(registry.leaves)) - gone
    {
      ghost var before := DnsPart(registry.leaves);
      var todo := gone;
      while todo != {}
        invariant todo <= gone
        invariant OthersKeepAway() && RestUntouched(start, n) && old(others.taken) <= others.taken
        invariant DnsPart(registry.leaves) == before - (gone - todo)
        decreases todo
      {
        var alias :| alias in todo;
        todo := todo - {alias};
        Prune(alias, start, n);
      }
      assert gone - todo == gone;
    }

    /** Theorem: whatever the other sources do meanwhile, the DNS part ends as the record set demands, and the
        rest ends exactly as their actions alone leave it. */
    method Reconcile(records: seq<SrvRecord>)
      requires OthersKeepAway()
      modifies registry, others
      ensures OthersKeepAway() && old(others.taken) <= others.taken
      ensures Reconciled(DnsPart(old(registry.leaves)), DnsPart(registry.leaves), settings, records)
      ensures OtherPart(registry.leaves)
              == OtherPart(ActAll(old(registry.leaves), others.taken[|old(others.taken)|..]))
      ensures forall a :: "dns-" <= a ==> (a in registry.leaves <==> a in Targets(records))
      ensures forall a :: "dns-" <= a && a in registry.leaves && a in old(registry.leaves) ==>
                registry.leaves[a] == old(registry.leaves)[a]
      ensures var alone := ActAll(old(registry.leaves), others.taken[|old(others.taken)|..]);
              forall a :: !("dns-" <= a) ==>
                && (a in registry.leaves <==> a in alone)
                && (a in registry.leaves ==> registry.leaves[a] == alone[a])
    {
      ghost var start, n := registry.leaves, |others.taken|;
      DesiredAliases(records);
      var desired := Desired(records);
      assert others.taken[n..] == [];
      Await(start, n);
      var existing := set a | a in registry.leaves && IsDns(a);
      assert existing == DnsPart(registry.leaves).Keys;
      AddMissing(desired, existing, start, n);
      PruneGone(existing - desired.Keys, start, n);
      PartsApart(start, registry.leaves, ActAll(start, others.taken[n..]), Targets(records));
    }
  }

  // ---------- Reload of the configuration ----------

  /** The five members that decide whether a leaf has changed. */
  predicate SameServer(a: ServerConfig, b: ServerConfig) {
    && a.url == b.url
    && a.authToken == b.authToken
    && a.authTokenFile == b.authTokenFile
    && a.transport == b.transport
    && a.timeoutSeconds == b.timeoutSeconds
  }

  predicate DistinctAliases(servers: seq<ServerConfig>) {
    forall i, j :: 0 <= i < j < |servers| ==> servers[i].alias != servers[j].alias
  }

  function ConfigAliases(servers: seq<ServerConfig>): set<string> {
    set s | s in servers :: s.alias
  }

  /** The registry holds exactly the configured leaves. */
  predicate Settled(leaves: Leaves, servers: seq<ServerConfig>) {
    && leaves.Keys == ConfigAliases(servers)
    && forall s :: s in servers ==> SameServer(leaves[s.alias].config, s)
  }

  /** What a reload makes of one server: an unchanged leaf stays the same entry. */
  predicate Refreshed(before: Leaves, after: Leaves, server: ServerConfig) {
    && server.alias in after
    && if server.alias in before && SameServer(before[server.alias].config, server)
       then after[server.alias] == before[server.alias]
       else after[server.alias].config == server
  }

  /** What actions make of one alias. */
  function Effect(entry: Option<LeafEntry>, actions: seq<Action>, alias: string): Option<LeafEntry> {
    if actions == [] then entry
    else match actions[|actions| - 1]
      case Add(a, e) => if a == alias then Some(e) else Effect(entry, actions[..|actions| - 1], alias)
      case Remove(a) => if a == alias then None else Effect(entry, actions[..|actions| - 1], alias)
  }

  lemma {:induction false} EffectIsLookup(leaves: Leaves, actions: seq<Action>, alias: string)
    ensures Lookup(ActAll(leaves, actions), alias) == Effect(Lookup(leaves, alias), actions, alias)
    decreases |actions|
  {
    if actions != [] { EffectIsLookup(leaves, actions[..|actions| - 1], alias); }
  }

  lemma {:induction false} EffectConcat(entry: Option<LeafEntry>, a: seq<Action>, b: seq<Action>, alias: string)
    ensures Effect(entry, a + b, alias) == Effect(Effect(entry, a, alias), b, alias)
    decreases |b|
  {
    if b == [] {
      assert a + b == a;
    } else {
      assert (a + b)[..|a + b| - 1] == a + b[..|b| - 1];
      EffectConcat(entry, a, b[..|b| - 1], alias);
    }
  }

  /** A write of the reload: how many actions of the others came before it, and what it left. */
  datatype Write = Write(at: nat, left: Option<LeafEntry>)

  type Writes = map<string, Write>

  /** An alias is what the others' later actions make of the reload's write, if there is one, or else of the start. */
  function LastWord(start: Leaves, actions: seq<Action>, writes: Writes, alias: string): Option<LeafEntry>
    requires alias in writes ==> writes[alias].at <= |actions|
  {
    if alias in writes then Effect(writes[alias].left, actions[writes[alias].at..], alias)
    else Effect(Lookup(start, alias), actions, alias)
  }

  ghost predicate LastWordsHold(start: Leaves, actions: seq<Action>, writes: Writes, now: Leaves) {
    && (forall a :: a in writes ==> writes[a].at <= |actions|)
    && forall a :: Lookup(now, a) == LastWord(start, actions, writes, a)
  }

  /** The alias of a server as it stood after the first `g` actions decides: the same server is left alone, any other
      is written. */
  predicate DecidedAt(start: Leaves, actions: seq<Action>, writes: Writes, s: ServerConfig, g: nat)
    requires g <= |actions|
  {
    var seen := Effect(Lookup(start, s.alias), actions[..g], s.alias);
    if seen.Some? && SameServer(seen.value.config, s) then s.alias !in writes
    else
      && s.alias in writes && g <= writes[s.alias].at
      && writes[s.alias].left.Some? && writes[s.alias].left.value.config == s
  }

  ghost predicate Decided(start: Leaves, actions: seq<Action>, writes: Writes, s: ServerConfig) {
    exists g: nat :: g <= |actions| && DecidedAt(start, actions, writes, s, g)
  }

  /** What a reload makes of the registry while others act: each configured alias is decided once, each other alias of
      the start is removed once, and nothing else is written. */
  ghost predicate Reloaded(start: Leaves, actions: seq<Action>, writes: Writes, now: Leaves, servers: seq<ServerConfig>)
  {
    && LastWordsHold(start, actions, writes, now)
    && (forall s :: s in servers ==> Decided(start, actions, writes, s))
    && (forall a :: a in writes && a !in ConfigAliases(servers) ==> a in start && writes[a].left.None?)
    && (forall a :: a in start && a !in ConfigAliases(servers) ==> a in writes)
  }

  lemma OthersAct(start: Leaves, actions: seq<Action>, writes: Writes, now: Leaves, more: seq<Action>)
    requires LastWordsHold(start, actions, writes, now)
    ensures LastWordsHold(start, actions + more, writes, ActAll(now, more))
  {
    forall a
      ensures Lookup(ActAll(now, more), a) == LastWord(start, actions + more, writes, a)
    {
      EffectIsLookup(now, more, a);
      if a in writes {
        var at := writes[a].at;
        assert (actions + more)[at..] == actions[at..] + more;
        EffectConcat(writes[a].left, actions[at..], more, a);
      } else {
        EffectConcat(Lookup(start, a), actions, more, a);
      }
    }
  }

  lemma DecisionStands(start: Leaves, actions: seq<Action>, writes: Writes, s: ServerConfig, more: seq<Action>)
    requires Decided(start, actions, writes, s)
    ensures Decided(start, actions + more, writes, s)
  {
    var g: nat :| g <= |actions| && DecidedAt(start, actions, writes, s, g);
    assert (actions + more)[..g] == actions[..g];
    assert DecidedAt(start, actions + more, writes, s, g);
  }

  lemma ReloadWrites(start: Leaves, actions: seq<Action>, writes: Writes, now: Leaves, a: string, next: Leaves)
    requires LastWordsHold(start, actions, writes, now) && next - {a} == now - {a}
    ensures LastWordsHold(start, actions, writes[a := Write(|actions|, Lookup(next, a))], next)
  {
    var more := writes[a := Write(|actions|, Lookup(next, a))];
    assert actions[|actions|..] == [];
    forall b
      ensures Lookup(next, b) == LastWord(start, actions, more, b)
    {
      if b != a {
        assert Lookup(next, b) == Lookup(next - {a}, b) == Lookup(now - {a}, b) == Lookup(now, b);
      }
    }
  }

  lemma OtherDecisionsStand(start: Leaves, actions: seq<Action>, writes: Writes, s: ServerConfig, a: string, w: Write)
    requires Decided(start, actions, writes, s) && s.alias != a
    ensures Decided(start, actions, writes[a := w], s)
  {
    var g: nat :| g <= |actions| && DecidedAt(start, actions, writes, s, g);
    assert DecidedAt(start, actions, writes[a := w], s, g);
  }

  class ConfigReloader {
    const registry: Registry
    const others: Others

    constructor (registry: Registry, others: Others)
      ensures this.registry == registry && this.others == others
    {
      this.registry, this.others := registry, others;
    }

    /** The actions of the others since there were `n`. */
    ghost function Since(n: nat): seq<Action>
      requires n <= |others.taken|
      reads others
    {
      others.taken[n..]
    }

    ghost predicate Accounted(start: Leaves, n: nat, writes: Writes)
      reads registry, others
    {
      others.Valid() && n <= |others.taken| && LastWordsHold(start, Since(n), writes, registry.leaves)
    }

    /** An await: the other sources get a turn. */
    method Await(ghost start: Leaves, ghost n: nat, ghost writes: Writes)
      requires Accounted(start, n, writes)
      modifies registry, others
      ensures Accounted(start, n, writes) && old(others.taken) <= others.taken
    {
      ghost var now, taken := registry.leaves, others.taken;
      others.Turn(registry);
      Lengthened(taken, others.taken, n);
      OthersAct(start, taken[n..], writes, now, others.taken[|taken|..]);
    }

    /** Adds a server, or replaces it if it has changed. */
    method Refresh(server: ServerConfig, ghost start: Leaves, ghost n: nat, ghost writes: Writes)
      returns (ghost after: Writes)
      requires Accounted(start, n, writes) && server.alias !in writes
      modifies registry, others
      ensures Accounted(start, n, after) && old(others.taken) <= others.taken
      ensures after - {server.alias} == writes && Decided(start, Since(n), after, server)
    {
      after := writes;
      Await(start, n, writes);
      var current := Lookup(registry.leaves, server.alias);
      ghost var actions, taken := Since(n), others.taken;
      assert actions[..|actions|] == actions;
      var isNew := current.None?;
      var changed := current.Some? && !SameServer(current.value.config, server);
      if isNew || changed {
        var entry := new LeafEntry(server);
        Await(start, n, writes);
        Lengthened(taken, others.taken, n);
        assert Since(n)[..|actions|] == actions;
        ReloadWrites(start, Since(n), writes, registry.leaves, server.alias, registry.leaves[server.alias := entry]);
        after := writes[server.alias := Write(|Since(n)|, Some(entry))];
        var _ := registry.AddLeaf(server.alias, entry);
      }
      assert DecidedAt(start, Since(n), after, server, |actions|);
    }

    /** Theorem: the registry ends as the reload's writes and the others' actions, in the order in which they came,
        leave it. */
    method Reload(servers: seq<ServerConfig>) returns (ghost writes: Writes)
      requires DistinctAliases(servers) && others.Valid()
      modifies registry, others
      ensures others.Valid() && old(others.taken) <= others.taken
      ensures Reloaded(old(registry.leaves), others.taken[|old(others.taken)|..], writes, registry.leaves, servers)
    {
      ghost var start, n := registry.leaves, |others.taken|;
      writes := map[];
      assert Since(n) == [];
      var existing := registry.leaves.Keys;
      var incoming: set<string> := {};
      for i := 0 to |servers|
        invariant incoming == ConfigAliases(servers[..i]) && writes.Keys <= incoming
        invariant Accounted(start, n, writes) && old(others.taken) <= others.taken
        invariant forall j :: 0 <= j < i ==> Decided(start, Since(n), writes, servers[j])
      {
        NextAlias(servers, i);
        ghost var taken, before := others.taken, writes;
        writes := Refresh(servers[i], start, n, writes);
        Lengthened(taken, others.taken, n);
        EarlierDecisionsStand(start, taken[n..], before, servers, i, Since(n), writes);
        incoming := incoming + {servers[i].alias};
      }
      assert servers[..|servers|] == servers;
      var todo := existing - incoming;
      while todo != {}
        invariant todo <= existing - incoming
        invariant Accounted(start, n, writes) && old(others.taken) <= others.taken
        invariant forall s :: s in servers ==> Decided(start, Since(n), writes, s)
        invariant writes.Keys !! todo && existing - incoming - todo <= writes.Keys
        invariant forall a :: a in writes && a !in incoming ==> a in existing && writes[a].left.None?
        decreases todo
      {
        var alias :| alias in todo;
        todo := todo - {alias};
        writes := Prune(alias, start, n, writes, servers);
      }
    }

    method Prune(alias: string, ghost start: Leaves, ghost n: nat, ghost writes: Writes,
                 ghost servers: seq<ServerConfig>)
      returns (ghost after: Writes)
      requires Accounted(start, n, writes) && alias !in writes && alias !in ConfigAliases(servers)
      requires forall s :: s in servers ==> Decided(start, Since(n), writes, s)
      modifies registry, others
      ensures Accounted(start, n, after) && old(others.taken) <= others.taken
      ensures after == writes[alias := Write(|Since(n)|, None)]
      ensures forall s :: s in servers ==> Decided(start, Since(n), after, s)
    {
      ghost var taken := others.taken;
      Await(start, n, writes);
      Lengthened(taken, others.taken, n);
      after := writes[alias := Write(|Since(n)|, None)];
      forall s | s in servers
        ensures Decided(start, Since(n), after, s)
      {
        DecisionStands(start, taken[n..], writes, s, others.taken[|taken|..]);
        OtherDecisionsStand(start, Since(n), writes, s, alias, after[alias]);
      }
      ReloadWrites(start, Since(n), writes, registry.leaves, alias, registry.leaves - {alias});
      var _ := registry.RemoveLeaf(alias);
    }
  }

  lemma EarlierDecisionsStand(start: Leaves, actions: seq<Action>, writes: Writes, servers: seq<ServerConfig>, i: nat,
                              later: seq<Action>, after: Writes)
    requires DistinctAliases(servers) && i < |servers| && actions <= later
    requires servers[i].alias !in writes && after - {servers[i].alias} == writes
    requires forall j :: 0 <= j < i ==> Decided(start, actions, writes, servers[j])
    ensures forall j :: 0 <= j < i ==> Decided(start, later, after, servers[j])
  {
    var a := servers[i].alias;
    var more := later[|actions|..];
    assert later == actions + more;
    forall j | 0 <= j < i
      ensures Decided(start, later, after, servers[j])
    {
      DecisionStands(start, actions, writes, servers[j], more);
      assert servers[j].alias != a;
      if a in after {
        assert after == writes[a := after[a]];
        OtherDecisionsStand(start, later, writes, servers[j], a, after[a]);
      } else {
        assert after == writes;
      }
    }
  }

  lemma NextAlias(servers: seq<ServerConfig>, i: nat)
    requires DistinctAliases(servers) && i < |servers|
    ensures ConfigAliases(servers[..i + 1]) == ConfigAliases(servers[..i]) + {servers[i].alias}
    ensures servers[i].alias !in ConfigAliases(servers[..i])
  {
    assert servers[..i + 1] == servers[..i] + [servers[i]];
    forall s | s in servers[..i]
      ensures s.alias != servers[i].alias
    {
      var j :| 0 <= j < i && servers[j] == s;
    }
  }

  // ---------- What a reload achieves ----------

  predicate Untouched(actions: seq<Action>, alias: string) {
    forall i :: 0 <= i < |actions| ==> actions[i].alias != alias
  }

  lemma {:induction false} NoEffect(entry: Option<LeafEntry>, actions: seq<Action>, alias: string)
    requires Untouched(actions, alias)
    ensures Effect(entry, actions, alias) == entry
    decreases |actions|
  {
    if actions != [] { NoEffect(entry, actions[..|actions| - 1], alias); }
  }

  /** A configured alias that nobody else touched meanwhile is there with its configuration, as the same entry if it
      had not changed. */
  lemma ConfiguredAliasIsRefreshed(start: Leaves, actions: seq<Action>, writes: Writes, now: Leaves,
                                   servers: seq<ServerConfig>, s: ServerConfig)
    requires Reloaded(start, actions, writes, now, servers) && s in servers && Untouched(actions, s.alias)
    ensures Refreshed(start, now, s)
  {
    var g: nat :| g <= |actions| && DecidedAt(start, actions, writes, s, g);
    NoEffect(Lookup(start, s.alias), actions[..g], s.alias);
    if s.alias in writes {
      NoEffect(writes[s.alias].left, actions[writes[s.alias].at..], s.alias);
    } else {
      NoEffect(Lookup(start, s.alias), actions, s.alias);
    }
    assert Lookup(now, s.alias) == LastWord(start, actions, writes, s.alias);
  }

  /** Theorem: of an alias that nobody else touched, the entry stays exactly when url, token, token file, transport and
      time-out are as before. Otherwise it is replaced by one with the new configuration. */
  lemma EntryStaysIff(start: Leaves, actions: seq<Action>, writes: Writes, now: Leaves, servers: seq<ServerConfig>,
                      s: ServerConfig)
    requires Reloaded(start, actions, writes, now, servers) && s in servers && Untouched(actions, s.alias)
    requires s.alias in start
    ensures s.alias in now
    ensures var was := start[s.alias].config;
            var same := && was.url == s.url && was.authToken == s.authToken && was.authTokenFile == s.authTokenFile
                        && was.transport == s.transport && was.timeoutSeconds == s.timeoutSeconds;
            && (now[s.alias] == start[s.alias] <==> same)
            && (!same ==> now[s.alias].config == s)
  {
    ConfiguredAliasIsRefreshed(start, actions, writes, now, servers, s);
  }

  /** Any other alias: an old one is gone unless somebody added it again after its removal; a new one is what the
      others alone make of it. */
  lemma OtherAliases(start: Leaves, actions: seq<Action>, writes: Writes, now: Leaves, servers: seq<ServerConfig>,
                     a: string)
    requires Reloaded(start, actions, writes, now, servers) && a !in ConfigAliases(servers)
    ensures a !in start ==> Lookup(now, a) == Lookup(ActAll(start, actions), a)
    ensures Untouched(actions, a) ==> a !in now
  {
    EffectIsLookup(start, actions, a);
    assert Lookup(now, a) == LastWord(start, actions, writes, a);
    if Untouched(actions, a) {
      NoEffect(None, actions, a);
      if a in writes { NoEffect(None, actions[writes[a].at..], a); }
    }
  }

  /** Theorem: a reload that nobody disturbs leaves exactly the configured leaves. Those that have not changed are the
      same entries, the others have the new configuration. Every other alias is gone, wherever it came from. A second
      such reload changes nothing. */
  lemma QuietReloadSettles(start: Leaves, writes: Writes, now: Leaves, servers: seq<ServerConfig>)
    requires Reloaded(start, [], writes, now, servers)
    ensures Settled(now, servers) && forall s :: s in servers ==> Refreshed(start, now, s)
    ensures Settled(start, servers) ==> now == start
  {
    forall s | s in servers
      ensures Refreshed(start, now, s)
    {
      ConfiguredAliasIsRefreshed(start, [], writes, now, servers, s);
    }
    forall a | a !in ConfigAliases(servers)
      ensures a !in now
    {
      OtherAliases(start, [], writes, now, servers, a);
    }
    assert now.Keys == ConfigAliases(servers);
  }

  /** Theorem: from any registry, a reload and then a DNS poll leave the configured aliases that are not DNS
      discovery's, with their configuration, and the sanitized targets. */
  method ReloadThenPoll(registry: Registry, servers: seq<ServerConfig>, settings: DnsSettings, records: seq<SrvRecord>)
    requires DistinctAliases(servers)
    modifies registry
    ensures registry.leaves.Keys == (set a | a in ConfigAliases(servers) && !IsDns(a)) + Targets(records)
    ensures forall s :: s in servers && !IsDns(s.alias) ==> SameServer(registry.leaves[s.alias].config, s)
  {
    var others := new Others([]);
    var reloader := new ConfigReloader(registry, others);
    ghost var start := registry.leaves;
    ghost var writes := reloader.Reload(servers);
    assert others.taken[0..] == [];
    QuietReloadSettles(start, writes, registry.leaves, servers);
    var discovery := new DnsDiscovery(registry, others, settings);
    discovery.Reconcile(records);
    DesiredAliases(records);
  }
}
