/** Pointing Codex at the local router and giving the user's configuration back
    (src-tauri/src/codex/sync.rs).

    Three files take part: config.toml, a snapshot of the original, and a marker that the
    original did not exist.  Every call is a fixed list of file operations; a crash or an
    error may cut it after any of them. */
module RouterConfig {
  import opened Prelude

  // TOML documents.

  /** A value; only standard tables count as tables, inline ones do not. */
  datatype Item =
    | Str(text: string)
    | Flag(on: bool)
    | Table(entries: map<string, Item>)
    | Inline(entries: map<string, Item>)
    | Other

  type Document = map<string, Item>

  /** What a file holds: bytes with what the TOML parser makes of them, or a rendered document. */
  datatype Content = Bytes(bytes: seq<int>, parsed: Option<Document>) | Rendered(document: Document)

  const EMPTY_FILE := Bytes([], Some(map[]))

  const PROVIDER_KEY := "quotashift_router"
  const ROUTER_NAME := "QuotaShift"
  const LOOPBACK_PREFIX := "http://127.0.0.1:"

  function Parse(file: Option<Content>): Option<Document> {
    match file
    case None => None
    case Some(Bytes(_, parsed)) => parsed
    case Some(Rendered(document)) => Some(document)
  }

  /** What is there is rewritten; a missing or unparsable file counts as empty. */
  function DocumentOf(file: Option<Content>): Document {
    if Parse(file).Some? then Parse(file).value else map[]
  }

  function EntryOrTable(m: map<string, Item>, key: string): Item {
    if key in m then m[key] else Table(map[])
  }

  /** The settings of the router's own provider table. */
  function RouterTable(entries: map<string, Item>, url: string, secret: string): map<string, Item> {
    var settings := entries["name" := Str(ROUTER_NAME)]["wire_api" := Str("responses")]
      ["requires_openai_auth" := Flag(true)]["base_url" := Str(url)] - {"env_key"};
    var headers := EntryOrTable(settings, "http_headers");
    settings["http_headers" :=
      if headers.Table? then Table(headers.entries["X-QuotaShift-Token" := Str(secret)]) else headers]
  }

  function WithRouter(providers: Item, url: string, secret: string): Item {
    if !providers.Table? then providers else
    var router := EntryOrTable(providers.entries, PROVIDER_KEY);
    Table(providers.entries[PROVIDER_KEY :=
      if router.Table? then Table(RouterTable(router.entries, url, secret)) else router])
  }

  /** write_codex_router_config_at: what replaces the configuration. */
  function RouterDocument(existing: Option<Content>, url: string, secret: string): Document {
    var pointed := DocumentOf(existing)["model_provider" := Str(PROVIDER_KEY)] - {"openai_api_key", "openai_base_url"};
    pointed["model_providers" := WithRouter(EntryOrTable(pointed, "model_providers"), url, secret)]
  }

  /** config_points_at_quotashift_loopback */
  predicate Recognised(file: Option<Content>) {
    && Parse(file).Some?
    && var document := Parse(file).value;
    && "model_provider" in document && document["model_provider"].Str?
    && "model_providers" in document && document["model_providers"].Table?
    && var providers := document["model_providers"].entries; var key := document["model_provider"].text;
    && key in providers && providers[key].Table?
    && var provider := providers[key].entries;
    && "name" in provider && provider["name"] == Str(ROUTER_NAME)
    && "base_url" in provider && provider["base_url"].Str? && LOOPBACK_PREFIX <= provider["base_url"].text
  }

  /** The provider list, and the router's entry in it, are standard tables wherever they exist. */
  predicate StandardTables(file: Option<Content>) {
    Parse(file).Some? ==>
      var providers := EntryOrTable(Parse(file).value, "model_providers");
      providers.Table? && EntryOrTable(providers.entries, PROVIDER_KEY).Table?
  }

  /** A written configuration is recognised exactly when it started from standard tables and
      the URL is a loopback one. */
  lemma WrittenIsRecognised(existing: Option<Content>, url: string, secret: string)
    ensures var written := Some(Rendered(RouterDocument(existing, url, secret)));
      && (Recognised(written) <==> StandardTables(existing) && LOOPBACK_PREFIX <= url)
      && (StandardTables(written) <==> StandardTables(existing))
  {
  }

  // What a written configuration says, key by key.

  function Inside(m: map<string, Item>, key: string): map<string, Item> {
    if key in m && m[key].Table? then m[key].entries else map[]
  }

  predicate AbsentOrTable(m: map<string, Item>, key: string) { key in m ==> m[key].Table? }

  ghost predicate SameExcept(before: map<string, Item>, after: map<string, Item>, keys: set<string>) {
    forall k :: k !in keys ==> Lookup(after, k) == Lookup(before, k)
  }

  ghost predicate HeadersCarry(before: map<string, Item>, after: map<string, Item>, secret: string) {
    SameExcept(before, after, {"X-QuotaShift-Token"}) && Lookup(after, "X-QuotaShift-Token") == Some(Str(secret))
  }

  ghost predicate ProviderRoutes(before: map<string, Item>, after: map<string, Item>, url: string, secret: string) {
    && SameExcept(before, after, {"name", "wire_api", "requires_openai_auth", "base_url", "env_key", "http_headers"})
    && Lookup(after, "name") == Some(Str("QuotaShift"))
    && Lookup(after, "wire_api") == Some(Str("responses"))
    && Lookup(after, "requires_openai_auth") == Some(Flag(true))
    && Lookup(after, "base_url") == Some(Str(url))
    && Lookup(after, "env_key") == None
    && (AbsentOrTable(before, "http_headers") ==>
      && "http_headers" in after && after["http_headers"].Table?
      && HeadersCarry(Inside(before, "http_headers"), after["http_headers"].entries, secret))
    && (!AbsentOrTable(before, "http_headers") ==> Lookup(after, "http_headers") == Lookup(before, "http_headers"))
  }

  ghost predicate ProvidersRoute(before: map<string, Item>, after: map<string, Item>, url: string, secret: string) {
    && SameExcept(before, after, {"quotashift_router"})
    && (AbsentOrTable(before, "quotashift_router") ==>
      && "quotashift_router" in after && after["quotashift_router"].Table?
      && ProviderRoutes(Inside(before, "quotashift_router"), after["quotashift_router"].entries, url, secret))
    && (!AbsentOrTable(before, "quotashift_router") ==>
      Lookup(after, "quotashift_router") == Lookup(before, "quotashift_router"))
  }

  /** The router's provider is chosen and set up with the URL and the secret header, the OpenAI
      overrides are gone, and every other key, provider, setting and header is as it was.  What
      stands where a table should be stays. */
  ghost predicate Routes(before: Document, after: Document, url: string, secret: string) {
    && SameExcept(before, after, {"model_provider", "openai_api_key", "openai_base_url", "model_providers"})
    && Lookup(after, "model_provider") == Some(Str("quotashift_router"))
    && Lookup(after, "openai_api_key") == None
    && Lookup(after, "openai_base_url") == None
    && (AbsentOrTable(before, "model_providers") ==>
      && "model_providers" in after && after["model_providers"].Table?
      && ProvidersRoute(Inside(before, "model_providers"), after["model_providers"].entries, url, secret))
    && (!AbsentOrTable(before, "model_providers") ==>
      Lookup(after, "model_providers") == Lookup(before, "model_providers"))
  }

  lemma RouterTableRoutes(before: map<string, Item>, url: string, secret: string)
    ensures ProviderRoutes(before, RouterTable(before, url, secret), url, secret)
  {}

  lemma WithRouterRoutes(providers: Item, url: string, secret: string)
    ensures providers.Table? ==>
      && WithRouter(providers, url, secret).Table?
      && ProvidersRoute(providers.entries, WithRouter(providers, url, secret).entries, url, secret)
    ensures !providers.Table? ==> WithRouter(providers, url, secret) == providers
  {
    if providers.Table? { RouterTableRoutes(Inside(providers.entries, PROVIDER_KEY), url, secret); }
    hide RouterTable, ProviderRoutes;
  }

  /** What a begin writes, from whatever it finds. */
  lemma WrittenRoutes(existing: Option<Content>, url: string, secret: string)
    ensures Routes(DocumentOf(existing), RouterDocument(existing, url, secret), url, secret)
  {
    WithRouterRoutes(EntryOrTable(DocumentOf(existing), "model_providers"), url, secret);
    hide WithRouter, ProvidersRoute;
  }

  /** The header a client of the router must send, as the document tells it. */
  function TokenHeader(document: Document): Option<Item> {
    var router := Inside(Inside(document, "model_providers"), "quotashift_router");
    Lookup(Inside(router, "http_headers"), "X-QuotaShift-Token")
  }

  /** The secret arrives exactly when no other value stands where a table belongs; an inline
      table of headers, for one, stays as it is and the client has no secret to send. */
  lemma SecretArrivesIff(existing: Option<Content>, url: string, secret: string)
    ensures
      var before := DocumentOf(existing);
      var providers := Inside(before, "model_providers");
      TokenHeader(RouterDocument(existing, url, secret)) == Some(Str(secret)) <==>
        && AbsentOrTable(before, "model_providers")
        && AbsentOrTable(providers, "quotashift_router")
        && AbsentOrTable(Inside(providers, "quotashift_router"), "http_headers")
  {
    hide RouterDocument;
    WrittenRoutes(existing, url, secret);
  }

  /** No other document does: what is written is determined by what was there. */
  lemma RoutesDetermines(before: Document, a: Document, b: Document, url: string, secret: string)
    requires Routes(before, a, url, secret) && Routes(before, b, url, secret)
    ensures a == b
  {
    hide ProvidersRoute;
    if AbsentOrTable(before, "model_providers") {
      ProvidersDetermine(Inside(before, "model_providers"), a["model_providers"].entries,
                         b["model_providers"].entries, url, secret);
    }
    SameLookups(a, b);
  }

  lemma ProvidersDetermine(
      before: map<string, Item>, a: map<string, Item>, b: map<string, Item>, url: string, secret: string)
    requires ProvidersRoute(before, a, url, secret) && ProvidersRoute(before, b, url, secret)
    ensures a == b
  {
    hide ProviderRoutes;
    if AbsentOrTable(before, "quotashift_router") {
      ProviderDetermines(Inside(before, "quotashift_router"), a["quotashift_router"].entries,
                         b["quotashift_router"].entries, url, secret);
    }
    SameLookups(a, b);
  }

  lemma ProviderDetermines(
      before: map<string, Item>, a: map<string, Item>, b: map<string, Item>, url: string, secret: string)
    requires ProviderRoutes(before, a, url, secret) && ProviderRoutes(before, b, url, secret)
    ensures a == b
  {
    if AbsentOrTable(before, "http_headers") {
      SameLookups(a["http_headers"].entries, b["http_headers"].entries);
    }
    SameLookups(a, b);
  }

  lemma SameLookups(a: map<string, Item>, b: map<string, Item>)
    ensures a == b <==> forall k :: Lookup(a, k) == Lookup(b, k)
  {
    if forall k :: Lookup(a, k) == Lookup(b, k) {
      assert forall k :: (k in a <==> Lookup(a, k).Some?) && (k in b <==> Lookup(b, k).Some?);
    }
  }

  /** A configuration is recognised exactly when it can be parsed and the provider it chooses is
      a standard table with the router's name and a loopback URL. */
  lemma RecognisedIff(file: Option<Content>)
    ensures Recognised(file) <==> Parse(file).Some? && exists key, provider, url ::
      && Lookup(Parse(file).value, "model_provider") == Some(Str(key))
      && Lookup(Inside(Parse(file).value, "model_providers"), key) == Some(Table(provider))
      && Lookup(provider, "name") == Some(Str("QuotaShift"))
      && Lookup(provider, "base_url") == Some(Str(url))
      && "http://127.0.0.1:" <= url
  {
    if Recognised(file) {
      var document := Parse(file).value;
      var key := document["model_provider"].text;
      var provider := document["model_providers"].entries[key].entries;
      var url := provider["base_url"].text;
      assert Lookup(document, "model_provider") == Some(Str(key));
      assert Lookup(Inside(document, "model_providers"), key) == Some(Table(provider));
      assert Lookup(provider, "base_url") == Some(Str(url));
    }
  }

  // The files, and the states each call passes through.

  datatype Files = Files(config: Option<Content>, snapshot: Option<Content>, marker: bool)

  /** One more state if an operation is needed. */
  function Maybe(needed: bool, state: Files): seq<Files> { if needed then [state] else [] }

  function Last(states: seq<Files>): Files
    requires states != []
  {
    states[|states| - 1]
  }

  function At(states: seq<Files>, cut: nat): Files
    requires states != []
  {
    states[Min(cut, |states| - 1)]
  }

  function Routed(existing: Option<Content>, url: string, secret: string): Option<Content> {
    Some(Rendered(RouterDocument(existing, url, secret)))
  }

  /** Taking the snapshot, unless there is one: clear a stale marker or set the marker, then copy. */
  function SnapshotStates(f: Files): (r: seq<Files>)
    ensures r != []
  {
    if f.snapshot.Some? then [f]
    else if f.config.Some? then
      [f] + Maybe(f.marker, f.(marker := false)) + [f.(marker := false, snapshot := f.config)]
    else [f, f.(marker := true), f.(marker := true, snapshot := Some(EMPTY_FILE))]
  }

  /** begin_codex_router_config_at_with_secret; an unreadable configuration counts as empty
      when it is rewritten. */
  function BeginStates(f: Files, url: string, secret: string, readable: bool): (r: seq<Files>)
    ensures |r| >= 2
  {
    var ready := SnapshotStates(f);
    ready + [Last(ready).(config := Routed(if readable then f.config else None, url, secret))]
  }

  /** restore_codex_router_config_at */
  function RestoreStates(f: Files): (r: seq<Files>)
    ensures r != []
  {
    if f.snapshot.None? then [f] + Maybe(f.marker, f.(marker := false))
    else
      var back := f.(config := if f.marker then None else f.snapshot);
      [f] + Maybe(!f.marker || f.config.Some?, back) + [back.(snapshot := None)]
          + Maybe(f.marker, back.(snapshot := None, marker := false))
  }

  /** recover_stale_codex_router_config_at; a configuration that cannot be read is not recognised. */
  function RecoverStates(f: Files, readable: bool): (r: seq<Files>)
    ensures r != []
  {
    if f.snapshot.None? then [f] + Maybe(f.marker, f.(marker := false))
    else if (readable && Recognised(f.config)) || (f.config.None? && !f.marker) then RestoreStates(f)
    else [f, f.(snapshot := None)] + Maybe(f.marker, f.(snapshot := None, marker := false))
  }

  /** A call, the number of file operations it completes, and for a begin whose last write
      fails, how much of the restore it then starts completes (none when it crashes).
      ConfigDisappears is another program deleting the routed configuration. */
  datatype Event =
    | Begin(url: string, secret: string, readable: bool, cut: nat, undo: nat)
    | Restore(cut: nat)
    | Recover(readable: bool, cut: nat)
    | ConfigDisappears

  function Exec(f: Files, e: Event): Files {
    match e
    case Begin(url, secret, readable, cut, undo) =>
      var states := BeginStates(f, url, secret, readable);
      if cut == |states| - 2 && f.snapshot.None? then At(RestoreStates(states[cut]), undo) else At(states, cut)
    case Restore(cut) => At(RestoreStates(f), cut)
    case Recover(readable, cut) => At(RecoverStates(f, readable), cut)
    case ConfigDisappears => if f.snapshot.Some? then f.(config := None) else f
  }

  function Run(f: Files, events: seq<Event>): Files {
    if events == [] then f else Exec(Run(f, events[..|events| - 1]), events[|events| - 1])
  }

  // The invariant.

  /** Either nothing is outstanding and the configuration is the original, or the snapshot and
      the marker determine the original.  When recovery is to be trusted, the configuration is
      then the original, missing, or recognisably the router's. */
  ghost predicate Safe(original: Option<Content>, trusted: bool, f: Files) {
    if f.snapshot.None? then f.config == original
    else
      && (if original.Some? then f.snapshot == original && !f.marker else f.marker)
      && (trusted ==> StandardTables(f.config) && (f.config == original || f.config.None? || Recognised(f.config)))
  }

  ghost predicate AllSafe(original: Option<Content>, trusted: bool, states: seq<Files>) {
    forall i :: 0 <= i < |states| ==> Safe(original, trusted, states[i])
  }

  /** With recovery in play, the router's URL is a loopback one and the configuration can be
      read; without it nothing is asked. */
  predicate Allowed(trusted: bool, e: Event) {
    match e
    case Begin(url, _, _, _, _) => trusted ==> LOOPBACK_PREFIX <= url
    case Recover(readable, _) => trusted && readable
    case _ => true
  }

  lemma SnapshotIsSafe(original: Option<Content>, trusted: bool, f: Files)
    requires Safe(original, trusted, f) && (trusted ==> StandardTables(original))
    ensures AllSafe(original, trusted, SnapshotStates(f)) && Last(SnapshotStates(f)).snapshot.Some?
    ensures Last(SnapshotStates(f)).config == f.config
  {
    hide StandardTables, Recognised;
  }

  lemma BeginIsSafe(original: Option<Content>, trusted: bool, f: Files, url: string, secret: string, readable: bool)
    requires Safe(original, trusted, f) && (trusted ==> StandardTables(original) && LOOPBACK_PREFIX <= url)
    ensures AllSafe(original, trusted, BeginStates(f, url, secret, readable))
  {
    var existing := if readable then f.config else None;
    assert trusted ==> StandardTables(existing);
    WrittenIsRecognised(existing, url, secret);
    hide StandardTables, Recognised, RouterDocument;
    SnapshotIsSafe(original, trusted, f);
    hide SnapshotStates;
  }

  /** Restoring is safe throughout and ends with the original and nothing left behind. */
  lemma RestoreIsSafe(original: Option<Content>, trusted: bool, f: Files)
    requires Safe(original, trusted, f) && (trusted ==> StandardTables(original))
    ensures AllSafe(original, trusted, RestoreStates(f))
    ensures Last(RestoreStates(f)) == Files(original, None, false)
  {
    hide StandardTables, Recognised;
  }

  lemma RecoverIsSafe(original: Option<Content>, f: Files)
    requires Safe(original, true, f) && StandardTables(original)
    ensures AllSafe(original, true, RecoverStates(f, true))
    ensures Last(RecoverStates(f, true)) == Files(original, None, false)
  {
    hide StandardTables, Recognised;
    RestoreIsSafe(original, true, f);
    hide RestoreStates;
  }

  lemma ExecIsSafe(original: Option<Content>, trusted: bool, f: Files, e: Event)
    requires Safe(original, trusted, f) && Allowed(trusted, e) && (trusted ==> StandardTables(original))
    ensures Safe(original, trusted, Exec(f, e))
  {
    assert StandardTables(None);
    hide StandardTables, Recognised, BeginStates, RestoreStates, RecoverStates;
    match e
    case Begin(url, secret, readable, cut, undo) =>
      BeginIsSafe(original, trusted, f, url, secret, readable);
      var states := BeginStates(f, url, secret, readable);
      if cut == |states| - 2 && f.snapshot.None? { RestoreIsSafe(original, trusted, states[cut]); }
    case Restore(cut) => RestoreIsSafe(original, trusted, f);
    case Recover(readable, cut) => RecoverIsSafe(original, f);
    case ConfigDisappears =>
  }

  /** Whatever calls are made and wherever each is cut off, one completed restore gives the
      original back and leaves no snapshot or marker; and so does one completed recovery, if
      recovery can be trusted. */
  lemma {:induction false} OriginalAlwaysComesBack(f: Files, trusted: bool, events: seq<Event>)
    requires f.snapshot.None? && (trusted ==> StandardTables(f.config))
    requires forall i :: 0 <= i < |events| ==> Allowed(trusted, events[i])
    ensures Safe(f.config, trusted, Run(f, events))
    ensures Last(RestoreStates(Run(f, events))) == Files(f.config, None, false)
    ensures trusted ==> Last(RecoverStates(Run(f, events), true)) == Files(f.config, None, false)
  {
    hide StandardTables, Recognised, RestoreStates, RecoverStates, Exec;
    if events != [] {
      OriginalAlwaysComesBack(f, trusted, events[..|events| - 1]);
      ExecIsSafe(f.config, trusted, Run(f, events[..|events| - 1]), events[|events| - 1]);
    }
    RestoreIsSafe(f.config, trusted, Run(f, events));
    if trusted { RecoverIsSafe(f.config, Run(f, events)); }
  }

  // Recovery without that trust.

  /** There is nothing to restore, or the files show what was there to be in place already, or
      recovery restores. */
  predicate RecoveryWorks(f: Files, readable: bool) {
    || f.snapshot.None?
    || (if f.marker then f.config.None? else f.config == f.snapshot)
    || (readable && Recognised(f.config)) || (f.config.None? && !f.marker)
  }

  /** From any state a run can reach, recovery ends with the original exactly when there is
      nothing to restore, or the configuration is the snapshot or missing as the marker says, or
      it is recognised, or it is missing without a marker; otherwise what is in place stays. */
  lemma RecoveryRestoresIff(original: Option<Content>, f: Files, readable: bool)
    requires Safe(original, false, f)
    ensures Last(RecoverStates(f, readable)) ==
      Files(if RecoveryWorks(f, readable) then original else f.config, None, false)
    ensures RecoveryWorks(f, readable) <==> Last(RecoverStates(f, readable)) == Files(original, None, false)
    ensures RecoveryWorks(f, readable) ==> AllSafe(original, false, RecoverStates(f, readable))
  {
    hide Recognised;
    RestoreIsSafe(original, false, f);
    hide RestoreStates;
  }

  /** Every call is allowed but a recovery that would not restore. */
  ghost predicate Working(f: Files, events: seq<Event>) {
    forall i :: 0 <= i < |events| && events[i].Recover? ==>
      RecoveryWorks(Run(f, events[..i]), events[i].readable)
  }

  lemma WorkingStepIsSafe(original: Option<Content>, f: Files, e: Event)
    requires Safe(original, false, f) && (e.Recover? ==> RecoveryWorks(f, e.readable))
    ensures Safe(original, false, Exec(f, e))
  {
    if e.Recover? {
      RecoveryRestoresIff(original, f, e.readable);
      hide RecoverStates, Recognised, RecoveryWorks, Safe;
    } else {
      ExecIsSafe(original, false, f, e);
    }
  }

  /** With any URL, any original and any recoveries that restore, the original still comes back. */
  lemma {:induction false} OriginalComesBackWithoutTrust(f: Files, events: seq<Event>)
    requires f.snapshot.None? && Working(f, events)
    ensures Safe(f.config, false, Run(f, events))
    ensures Last(RestoreStates(Run(f, events))) == Files(f.config, None, false)
  {
    hide RestoreStates, RecoverStates, Exec, RecoveryWorks;
    if events != [] {
      var n := |events| - 1;
      var front := events[..n];
      assert Run(f, events) == Exec(Run(f, front), events[n]);
      assert forall i :: 0 <= i < n ==> front[..i] == events[..i];
      hide Run;
      OriginalComesBackWithoutTrust(f, front);
      WorkingStepIsSafe(f.config, Run(f, front), events[n]);
    }
    RestoreIsSafe(f.config, false, Run(f, events));
  }

  /** Where recovery is to be trusted it works in every state a run reaches. */
  lemma TrustedRecoveryWorks(original: Option<Content>, f: Files)
    requires Safe(original, true, f)
    ensures RecoveryWorks(f, true)
  {
    hide Recognised, StandardTables;
  }

  /** Exactly when a begin followed by a recovery gives the original back: the providers must
      be standard tables and the URL a loopback one.  Otherwise the snapshot is discarded and
      the router's configuration stays. */
  lemma RecoveryAfterBegin(f: Files, url: string, secret: string)
    requires f.snapshot.None?
    ensures var after := Last(RecoverStates(Last(BeginStates(f, url, secret, true)), true));
      after == if StandardTables(f.config) && LOOPBACK_PREFIX <= url then Files(f.config, None, false)
               else Files(Routed(f.config, url, secret), None, false)
  {
    WrittenIsRecognised(f.config, url, secret);
    hide StandardTables, Recognised, RouterDocument;
  }

  /** A recovery that cannot read the routed configuration throws the snapshot away. */
  lemma UnreadableConfigLosesTheOriginal(f: Files, url: string, secret: string)
    requires f.snapshot.None?
    ensures Last(RecoverStates(Last(BeginStates(f, url, secret, true)), false)) ==
        Files(Routed(f.config, url, secret), None, false)
  {
    hide Recognised, RouterDocument;
  }
}
