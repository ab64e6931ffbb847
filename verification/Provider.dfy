/** The boundary between the engine and an operating system. */
module Provider {
  import opened Text
  import opened Document
  import opened Graph

  datatype Action = Unchanged | Create | Update | Remove | Skip {
    predicate Changes() {
      Create? || Update? || Remove?
    }
  }

  datatype Trigger = NoTrigger | Restart | Reload

  /** One resource as a provider sees it: no manifest, no provenance. */
  datatype Request = Request(ref: Ref, target: string, desired: Value, layerDir: string, repoRoot: string, trigger: Trigger) {
    predicate Present() {
      match Lookup(desired, "state")
      case Some(Scalar(text, _, _, _)) => text != "absent"
      case _ => true
    }
  }

  datatype Observation = Observation(
    exists_: bool,
    found: string,
    fields: map<string, Value>,
    unobservable: seq<string>,
    uncorrectable: seq<string>,
    desired: Value)
  {
    /** A provider's own normalised view, where it has one. */
    function DesiredOr(declared: Value): Value {
      if desired.Map? && |desired.fields| > 0 then desired else declared
    }

    predicate CanObserve(name: string) {
      name !in unobservable
    }

    predicate CanCorrect(name: string) {
      name !in uncorrectable
    }
  }

  // The host

  /** What the operating system holds at one target. Only providers look inside. */
  datatype Entry = Entry(contents: string)

  type Key = (string, string)

  type Entries = map<Key, Entry>

  function EntryAt(entries: Entries, key: Key): Option<Entry> {
    if key in entries then Some(entries[key]) else None
  }

  function WithEntry(entries: Entries, key: Key, entry: Option<Entry>): Entries {
    match entry
    case Some(e) => entries[key := e]
    case None => entries - {key}
  }

  /** Leaving an entry at a key is seen there and nowhere else. */
  lemma EntryLeft(entries: Entries, key: Key, entry: Option<Entry>)
    ensures EntryAt(WithEntry(entries, key, entry), key) == entry
    ensures forall other :: other != key ==> EntryAt(WithEntry(entries, key, entry), other) == EntryAt(entries, other)
  {
  }

  datatype Applied = Applied(left: Option<Entry>, error: Option<string>)

  /**
   * Observing depends on the target's own entry and changes nothing. Applying may leave any
   * entry there and may fail, differently each time: its first argument counts the calls made
   * on the host so far.
   */
  datatype Provider = Provider(
    name: string,
    observe: (Request, Option<Entry>) -> Result<Observation, string>,
    apply: (nat, Request, Action, Option<Entry>) -> Applied)

  datatype Call = Call(ref: Ref, action: Action)

  class Host {
    var entries: Entries
    /** Every Apply a provider was asked for, in order. */
    var calls: seq<Call>

    constructor (initial: Entries)
      ensures entries == initial && calls == []
    {
      entries, calls := initial, [];
    }

    method Apply(p: Provider, request: Request, action: Action) returns (error: Option<string>)
      modifies this
      ensures
        var key := (request.ref.typ, request.target);
        var applied := p.apply(|old(calls)|, request, action, EntryAt(old(entries), key));
        entries == WithEntry(old(entries), key, applied.left) && error == applied.error
      ensures calls == old(calls) + [Call(request.ref, action)]
    {
      var key := (request.ref.typ, request.target);
      var applied := p.apply(|calls|, request, action, EntryAt(entries, key));
      entries := WithEntry(entries, key, applied.left);
      calls := calls + [Call(request.ref, action)];
      error := applied.error;
    }

    method Observe(p: Provider, request: Request) returns (seen: Result<Observation, string>)
      ensures seen == p.observe(request, EntryAt(entries, (request.ref.typ, request.target)))
    {
      seen := p.observe(request, EntryAt(entries, (request.ref.typ, request.target)));
    }
  }

  /** Which provider serves a type here, and why nothing does for the others. */
  datatype Providers = Providers(byType: map<string, Provider>, unserved: map<string, string>)

  // Reading the host

  datatype Reading =
    | Skipped(reason: string)
    | Unreadable(error: string)
    | Read(observation: Observation)

  const NOTHING_FOUND := Read(Observation(false, "", map[], [], [], Scalar("", false, "", [])))

  function RequestFor(node: Node, repoRoot: string, trigger: Trigger): Request {
    Request(node.resource.ref, node.target, node.resource.desired, node.resource.layerDir, repoRoot, trigger)
  }

  function KeyOf(node: Node): Key {
    (node.resource.ref.typ, node.target)
  }

  function SkipReason(typ: string, providers: Providers): string {
    if typ in providers.unserved then providers.unserved[typ] else ""
  }

  function ReadNode(node: Node, providers: Providers, repoRoot: string, entries: Entries): Reading {
    var typ := node.resource.ref.typ;
    if typ !in providers.byType then Skipped(SkipReason(typ, providers))
    else
      match providers.byType[typ].observe(RequestFor(node, repoRoot, NoTrigger), EntryAt(entries, KeyOf(node)))
      case Ok(observation) => Read(observation)
      case Err(error) => Unreadable(error)
  }

  /** A resource nothing serves is skipped for the reason given. Any other is what its provider makes of its own entry. */
  predicate SaysOf(r: Ref, node: Node, providers: Providers, repoRoot: string, entries: Entries, reading: Reading) {
    if r.typ !in providers.byType then
      reading == Skipped(if r.typ in providers.unserved then providers.unserved[r.typ] else "")
    else
      var asked := Request(r, node.target, node.resource.desired, node.resource.layerDir, repoRoot, NoTrigger);
      match providers.byType[r.typ].observe(asked, EntryAt(entries, (r.typ, node.target)))
      case Ok(observation) => reading == Read(observation)
      case Err(error) => reading == Unreadable(error)
  }

  /** Reads every resource of a graph, in plan order, and nothing else. */
  method ObserveHost(g: Graph, host: Host, providers: Providers, repoRoot: string)
    returns (readings: map<Ref, Reading>)
    requires forall r :: r in g.order ==> r in g.nodes && g.nodes[r].resource.ref == r
    ensures forall r :: r in readings <==> r in g.order
    ensures forall r :: r in g.order ==> readings[r] == ReadNode(g.nodes[r], providers, repoRoot, host.entries)
    ensures forall r :: r in g.order ==> SaysOf(r, g.nodes[r], providers, repoRoot, host.entries, readings[r])
  {
    readings := map[];
    for i := 0 to |g.order|
      invariant forall r :: r in readings <==> r in g.order[..i]
      invariant forall r :: r in g.order[..i] ==> readings[r] == ReadNode(g.nodes[r], providers, repoRoot, host.entries)
    {
      var ref := g.order[i];
      assert g.order[..i + 1] == g.order[..i] + [ref];
      var node := g.nodes[ref];
      if ref.typ !in providers.byType {
        readings := readings[ref := Skipped(SkipReason(ref.typ, providers))];
      } else {
        var seen := host.Observe(providers.byType[ref.typ], RequestFor(node, repoRoot, NoTrigger));
        match seen
        case Ok(observation) => readings := readings[ref := Read(observation)];
        case Err(error) => readings := readings[ref := Unreadable(error)];
      }
    }
    assert g.order[..|g.order|] == g.order;
  }
}
