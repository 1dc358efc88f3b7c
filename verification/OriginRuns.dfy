/** The controller's address over whole runs: which moves are authorized, and that no answer moves the gateway to another
    server. Nothing here is said through the authorization itself: servers are compared character by character. */
module OriginRuns {
  import opened Text
  import opened Letters
  import opened Adoption
  import opened Classify
  import opened Identities
  import opened ReplayWindow
  import opened GatewaySpec
  import opened GatewayInvariant
  import opened ReplayRuns
  import opened HttpRuns

  /** What a controller URL must look like. */
  predicate Usable(parse: UrlParser, url: string) {
    && 1 <= |url| <= 2048 && parse(url).Some? && parse(url).value.scheme in {"http", "https"}
    && parse(url).value.host != "" && parse(url).value.plain && parse(url).value.path == "/inform"
  }

  /** The port that is meant when none is written. */
  predicate MeansPort(u: Url, port: string) {
    u.port == port || (u.port == "" && ((u.scheme == "http" && port == "80") || (u.scheme == "https" && port == "443")))
  }

  /** Both URLs name one server: the same scheme, host name and port. */
  ghost predicate SameServer(parse: UrlParser, a: string, b: string) {
    && Usable(parse, a) && Usable(parse, b) && parse(a).value.scheme == parse(b).value.scheme
    && SameLetters(parse(a).value.hostname, parse(b).value.hostname)
    && exists port :: port != "" && MeansPort(parse(a).value, port) && MeansPort(parse(b).value, port)
  }

  lemma UsableIsValid(parse: UrlParser, url: string)
    ensures ValidInformUrl(parse, url) <==> Usable(parse, url)
  {
  }

  lemma PortIsMeant(u: Url, port: string)
    requires u.scheme in {"http", "https"} && port != ""
    ensures MeansPort(u, port) <==> EffectivePort(u) == port
  {
    assert |ToLower("http")| == 4 && |ToLower("https")| == 5;
  }

  /** A move is authorized exactly when both URLs are usable and name the same server. */
  lemma AuthorizedExactly(parse: UrlParser, a: string, b: string)
    ensures AuthorizeTransition(parse, a, b) <==> SameServer(parse, a, b)
  {
    hide AcceptableUrl, EffectivePort, EqualFold, MeansPort;
    UsableIsValid(parse, a);
    UsableIsValid(parse, b);
    if Usable(parse, a) && Usable(parse, b) {
      var u, v := parse(a).value, parse(b).value;
      FoldIsLetters(u.hostname, v.hostname);
      FoldIsLetters(u.scheme, v.scheme);
      SchemesAreWritten(u.scheme, v.scheme);
      PortIsWritten(u);
      PortIsMeant(u, EffectivePort(u));
      PortIsMeant(v, EffectivePort(u));
      if SameServer(parse, a, b) {
        var port :| port != "" && MeansPort(u, port) && MeansPort(v, port);
        PortIsMeant(u, port);
        PortIsMeant(v, port);
      }
    }
  }

  lemma PortIsWritten(u: Url)
    ensures EffectivePort(u) != ""
  {
  }

  lemma SchemesAreWritten(a: string, b: string)
    requires a in {"http", "https"} && b in {"http", "https"}
    ensures SameLetters(a, b) <==> a == b
  {
  }

  lemma SameServerIsSymmetric(parse: UrlParser, a: string, b: string)
    requires SameServer(parse, a, b)
    ensures SameServer(parse, b, a)
  {
    AuthorizedExactly(parse, a, b);
    AuthorizedExactly(parse, b, a);
    AuthorizeIsEquivalence(parse, a, b, a);
  }

  lemma SameServerIsTransitive(parse: UrlParser, a: string, b: string, c: string)
    requires SameServer(parse, a, b) && SameServer(parse, b, c)
    ensures SameServer(parse, a, c)
  {
    hide AuthorizeTransition;
    AuthorizedExactly(parse, a, b);
    AuthorizedExactly(parse, b, c);
    AuthorizedExactly(parse, a, c);
    UsableIsValid(parse, a);
    AuthorizeIsEquivalence(parse, a, b, c);
  }

  // ---- Answers -------------------------------------------------------------------------------------

  /** An answer that asks for another server is refused and changes nothing, on disk or in memory. */
  lemma ForeignServerIsRefused(env: Env, mem: Memory, disk: Disk, input: Input)
    requires MemInv(env, mem) && Ready(mem, input) && input.exchange.Decoded? && !Known(mem, input.exchange.nonce)
    requires Decide(env, mem, input.exchange.body).Ok?
    requires var next, url := Decide(env, mem, input.exchange.body).value.next.informURL, mem.persistent.stored.adoption.informURL;
      next != url && !SameServer(env.parse, url, next)
    ensures InformStep(env, mem, disk, input) == StepResult(mem, disk, Rejected(OriginRejected), [])
  {
    hide InformStep, MemInv, Ready, Known, ClassifyTarget, ClassifyReceipt, Decide, AuthorizeTransition, SameServer;
    var nonce, body := input.exchange.nonce, input.exchange.body;
    var d := Decide(env, mem, body).value;
    InformIsAnswer(env, mem, disk, input);
    DecideShape(env, mem, body);
    AuthorizedExactly(env.parse, mem.persistent.stored.adoption.informURL, d.next.informURL);
  }

  // ---- Runs ----------------------------------------------------------------------------------------

  ghost predicate StateAt(parse: UrlParser, s: State, url: string) {
    SameServer(parse, s.stored.adoption.informURL, url)
  }

  /** Memory and disk, where there is any, speak of one server. */
  ghost predicate SystemAt(env: Env, sys: System, url: string) {
    && Usable(env.parse, url) && SysInv(env, sys)
    && (sys.disk.state.Some? ==> StateAt(env.parse, sys.disk.state.value, url))
    && (sys.proc.Up? ==> StateAt(env.parse, sys.proc.mem.persistent, url))
  }

  /** Every start is configured for this server; nothing else about it is restricted. */
  ghost predicate StartsAt(env: Env, events: seq<Event>, url: string) {
    forall i :: 0 <= i < |events| ==> ConfiguredAt(env, events[i], url)
  }

  ghost predicate ConfiguredAt(env: Env, e: Event, url: string) {
    e.Start? ==> SameServer(env.parse, e.start.config.informURL, url)
  }

  lemma InformStaysAt(env: Env, mem: Memory, disk: Disk, input: Input, url: string)
    requires SystemAt(env, System(Up(mem), disk), url)
    ensures var r := InformStep(env, mem, disk, input); SystemAt(env, System(Up(r.mem), r.disk), url)
  {
    hide InformStep, MemInv, SameServer, Usable, Decide, Landed, WritesValid, OnlyBlocked;
    var r := InformStep(env, mem, disk, input);
    InformKeepsInv(env, mem, disk, input);
    InformStates(env, mem, disk, input);
    if r.mem.persistent != mem.persistent || r.disk.state != disk.state {
      var current := mem.persistent.stored.adoption.informURL;
      var next := Decide(env, mem, input.exchange.body).value.next.informURL;
      OriginWasAuthorized(env, mem, disk, input);
      AuthorizedExactly(env.parse, current, next);
      if next != current {
        SameServerIsSymmetric(env.parse, current, next);
        SameServerIsTransitive(env.parse, next, current, url);
      }
    }
  }

  lemma StartStaysAt(env: Env, sys: System, input: StartInput, url: string)
    requires SystemAt(env, sys, url) && SameServer(env.parse, input.config.informURL, url)
    ensures SystemAt(env, Step(env, sys, Start(input)).0, url)
  {
    hide MemInv, SameServer, Usable, ValidState, Boot, NewWindow, Meets, NewIdentity, Accepts, Adoption.Valid;
    StartEstablishesInv(env, sys.disk, input);
    LoadedAt(env.parse, input, sys.disk);
  }

  /** What a start loads is on the stored URL or on the configured one. */
  lemma LoadedAt(parse: UrlParser, input: StartInput, disk: Disk)
    ensures var (loaded, disk', writes) := LoadOrCreate(parse, input.config, input.request, disk, input.save);
      && (disk'.state == disk.state
          || (disk'.state.Some? && disk'.state.value.stored.adoption.informURL == input.config.informURL))
      && (loaded.Some? ==> disk'.state == loaded)
  {
    hide ValidState, Meets, NewIdentity;
  }

  /** Over every run whose starts are configured for one server - whatever is answered, and whichever writes fail in
      whichever way - the controller URL in memory and on disk keeps its scheme, host name and port. */
  lemma {:induction false} OriginNeverMoves(env: Env, sys: System, events: seq<Event>, url: string)
    requires SystemAt(env, sys, url) && StartsAt(env, events, url)
    ensures SystemAt(env, Run(env, sys, events), url)
    decreases |events|
  {
    hide Step, SystemAt, ConfiguredAt;
    if events != [] {
      StepStaysAt(env, sys, events[0], url);
      OriginNeverMoves(env, Step(env, sys, events[0]).0, events[1..], url);
    }
  }

  lemma StepStaysAt(env: Env, sys: System, e: Event, url: string)
    requires SystemAt(env, sys, url) && ConfiguredAt(env, e, url)
    ensures SystemAt(env, Step(env, sys, e).0, url)
  {
    hide InformStep, StartStep, MemInv, SameServer, Usable;
    match e
    case Stop =>
    case Start(input) => StartStaysAt(env, sys, input, url);
    case Inform(input) =>
      if sys.proc.Up? {
        InformStaysAt(env, sys.proc.mem, sys.disk, input, url);
      }
  }
}
