/** `computeContentAssist` of the manifest editor: the proposals offered while editing
    a `manifest.yml`. Module-level settings and the result of the metadata request
    are parameters; the request itself is not modelled. */
module Assist {
  import opened Wrappers
  import opened Strings
  import opened Manifest
  import opened Slug
  import opened Positions
  import opened Template
  import opened Proposals

  /** `keywords`: completions for single-valued manifest keys. */
  const Keywords: seq<string> := [
    "name: ", "memory: ", "memory: 256M", "memory: 512M", "memory: 1024M",
    "host: ", "buildpack: ", "command: ", "instances: ", "instances: 1",
    "path: ", "path: .", "timeout: ", "no-route: true", "inherit: ",
    "domain: "
  ]

  /** `lists`: keys whose value is a YAML list. */
  const ListKeys: seq<string> := ["applications:", "services:"]

  /** `objects`: keys whose value is a YAML mapping. */
  const ObjectKeys: seq<string> := ["env:"]

  const NameKey: string := "name: "
  const HostKey: string := "host: "
  const ServicesKey: string := "services: "
  const TemplateDescription: string := "Manifest template"

  /** The module-level `settings` content assist reads: the edited file's path and
      the names of the cached service instances (`null` until they are fetched). */
  datatype Settings = Settings(filePath: Option<string>, services: Option<seq<string>>)

  /** The editor's request: text before the cursor on its line, cursor offset, line
      delimiter and indentation unit. */
  datatype AssistOptions = AssistOptions(prefix: string, offset: int, delimiter: string, indentation: string)

  /** What the request for the file's metadata delivered: the names of the file's
      parents (the project is the last one), or a failed request. */
  datatype Metadata = Parents(names: seq<string>) | MetadataFailed

  /** How the promise returned by an asynchronous branch ends up. `NeverSettles` is
      the callback throwing before it resolves the promise. */
  datatype Settlement = Resolved(proposals: seq<Proposal>) | Rejected | NeverSettles

  /** The value `computeContentAssist` returns: a list, or a promise of one. */
  datatype Reply = Immediate(proposals: seq<Proposal>) | Deferred(settlement: Settlement)

  /** The stub after a list key: a new line holding a list item. */
  function ListStub(o: AssistOptions): string {
    o.delimiter + o.indentation + "- "
  }

  /** The stub after an object key: a new, indented line. */
  function ObjectStub(o: AssistOptions): string {
    o.delimiter + o.indentation + "  "
  }

  /** The proposal completing `candidate` after the typed `prefix`, followed by `stub`. */
  function Completion(candidate: string, prefix: string, stub: string): Proposal
    requires StartsWith(candidate, prefix)
  {
    Proposal(candidate[|prefix|..] + stub, candidate, None)
  }

  /** One `forEach` over candidates: a candidate is proposed exactly when it starts
      with the prefix (`candidate.indexOf(prefix) === 0`), in candidate order. */
  function PrefixProposals(candidates: seq<string>, prefix: string, stub: string): (ps: seq<Proposal>)
    ensures forall c :: c in candidates && StartsWith(c, prefix) ==> Completion(c, prefix, stub) in ps
    ensures forall p :: p in ps ==>
      p.description in candidates && StartsWith(p.description, prefix)
      && p == Completion(p.description, prefix, stub)
    ensures |ps| <= |candidates|
    decreases |candidates|
  {
    if |candidates| == 0 then []
    else
      var c := candidates[0];
      var rest := PrefixProposals(candidates[1..], prefix, stub);
      assert forall d :: d in candidates ==> d == c || d in candidates[1..];
      IndexOfZeroIsPrefix(c, prefix);
      if IndexOf(c, prefix) == Some(0) then [Completion(c, prefix, stub)] + rest else rest
  }

  /** The `forEach` pushes in candidate order: the proposals for two candidate lists
      one after the other are those of the first list followed by those of the second. */
  lemma {:induction false} PrefixProposalsConcat(xs: seq<string>, ys: seq<string>, prefix: string, stub: string)
    ensures PrefixProposals(xs + ys, prefix, stub) == PrefixProposals(xs, prefix, stub) + PrefixProposals(ys, prefix, stub)
    decreases |xs|
  {
    if |xs| == 0 {
      assert xs + ys == ys;
    } else {
      assert (xs + ys)[0] == xs[0] && (xs + ys)[1..] == xs[1..] + ys;
      PrefixProposalsConcat(xs[1..], ys, prefix, stub);
    }
  }

  /** A single candidate is proposed, once, exactly when it starts with the prefix. */
  lemma {:induction false} PrefixProposalsOne(c: string, prefix: string, stub: string)
    ensures PrefixProposals([c], prefix, stub)
      == if StartsWith(c, prefix) then [Completion(c, prefix, stub)] else []
  {
    IndexOfZeroIsPrefix(c, prefix);
    assert [c][1..] == [];
  }

  /** A completion names its candidate and ends with its stub, so it determines both. */
  lemma {:induction false} CompletionInjective(c: string, d: string, prefix: string, stub: string, other: string)
    requires StartsWith(c, prefix) && StartsWith(d, prefix)
    ensures Completion(c, prefix, stub) == Completion(d, prefix, other) ==> c == d && stub == other
  {
    var rest := c[|prefix|..];
    assert (rest + stub)[|rest|..] == stub;
    assert (rest + other)[|rest|..] == other;
  }

  /** Every copy of a candidate that starts with the prefix is proposed: duplicates
      among the candidates are duplicates among the proposals. */
  lemma {:induction false} PrefixProposalsCount(candidates: seq<string>, prefix: string, stub: string, c: string)
    requires StartsWith(c, prefix)
    ensures multiset(PrefixProposals(candidates, prefix, stub))[Completion(c, prefix, stub)] == multiset(candidates)[c]
    decreases |candidates|
  {
    if |candidates| > 0 {
      var d := candidates[0];
      assert candidates == [d] + candidates[1..];
      PrefixProposalsConcat([d], candidates[1..], prefix, stub);
      PrefixProposalsOne(d, prefix, stub);
      if StartsWith(d, prefix) {
        CompletionInjective(d, c, prefix, stub, stub);
      }
      PrefixProposalsCount(candidates[1..], prefix, stub, c);
    }
  }

  /** A candidate completed with a different stub is never among the proposals. */
  lemma {:induction false} OtherStubAbsent(candidates: seq<string>, prefix: string, stub: string, c: string, other: string)
    requires StartsWith(c, prefix) && other != stub
    ensures multiset(PrefixProposals(candidates, prefix, stub))[Completion(c, prefix, other)] == 0
  {
    CompletionInjective(c, c, prefix, other, stub);
  }

  /** The proposals built synchronously at a non-zero offset, before sorting: static
      keywords, list keys, object keys and cached service names, in that order. */
  function StaticProposals(settings: Settings, o: AssistOptions): seq<Proposal> {
    PrefixProposals(Keywords, o.prefix, "")
    + PrefixProposals(ListKeys, o.prefix, ListStub(o))
    + PrefixProposals(ObjectKeys, o.prefix, ObjectStub(o))
    + (if settings.services.Some? then PrefixProposals(settings.services.value, o.prefix, "") else [])
  }

  /** The skeleton proposal at offset 0 without a file path: its linked-mode stops
      are the placeholders `getPositions` finds in its text. */
  function TemplateProposal(delimiter: string): (p: Proposal)
    ensures p.proposal == TemplateText(delimiter)
    ensures p.description == TemplateDescription
    ensures GetPositions(p.proposal).Success? && p.positions == Some(GetPositions(p.proposal).value)
    ensures p.positions.Some? && |p.positions.value| > 0
  {
    TemplateHasPositions(delimiter);
    var text := TemplateText(delimiter);
    Proposal(text, TemplateDescription, Some(GetPositions(text).value))
  }

  /** The skeleton proposal with the project's name and host filled in, with the
      stops `getPositions` finds in the filled text. */
  function FilledTemplateProposal(delimiter: string, projectName: string): (p: Proposal)
    ensures p.proposal == FillTemplate(delimiter, projectName)
    ensures p.description == TemplateDescription
    ensures GetPositions(p.proposal).Success? && p.positions == Some(GetPositions(p.proposal).value)
    ensures p.positions.Some? && |p.positions.value| > 0
  {
    FilledTemplateHasPositions(delimiter, projectName);
    var text := FillTemplate(delimiter, projectName);
    Proposal(text, TemplateDescription, Some(GetPositions(text).value))
  }

  /** The prefix could still become `key`, the test guarding each metadata proposal. */
  predicate PrefixOf(key: string, prefix: string) {
    IndexOf(key, prefix) == Some(0)
  }

  /** The name of the file's project: the last parent's name (`resp.Parents.pop()`). */
  function ProjectOf(names: seq<string>): string
    requires |names| > 0
  {
    GetProjectName(names[|names| - 1])
  }

  /** The host proposal of the metadata callback: the slug of the project name. */
  function HostProposal(o: AssistOptions, projectName: string): Proposal
    requires PrefixOf(HostKey, o.prefix)
  {
    var slug := Slugify(projectName);
    Proposal(HostKey[|o.prefix|..] + slug, HostKey + slug, None)
  }

  /** The name proposal of the metadata callback: the project name itself. */
  function NameProposal(o: AssistOptions, projectName: string): Proposal
    requires PrefixOf(NameKey, o.prefix)
  {
    Proposal(NameKey[|o.prefix|..] + projectName, NameKey + projectName, None)
  }

  /** The `services:` proposal for one cached service: a list item under the key. */
  function ServiceProposal(o: AssistOptions, service: string): Proposal
    requires PrefixOf(ServicesKey, o.prefix)
  {
    Proposal(ServicesKey[|o.prefix|..] + ListStub(o) + service, ServicesKey + service, None)
  }

  /** One `services:` proposal per cached service, in cache order. */
  function ServiceProposals(o: AssistOptions, services: seq<string>): seq<Proposal>
    requires PrefixOf(ServicesKey, o.prefix)
  {
    seq(|services|, k requires 0 <= k < |services| => ServiceProposal(o, services[k]))
  }

  /** The list the metadata callback sorts: the name and host proposals the prefix
      allows, unshifted in front of the synchronous ones, then the service proposals. */
  function MetadataUnsorted(base: seq<Proposal>, settings: Settings, o: AssistOptions, projectName: string): seq<Proposal> {
    var withHost := if PrefixOf(HostKey, o.prefix) then [HostProposal(o, projectName)] + base else base;
    var withName := if PrefixOf(NameKey, o.prefix) then [NameProposal(o, projectName)] + withHost else withHost;
    var services :=
      if PrefixOf(ServicesKey, o.prefix) && settings.services.Some? then
        ServiceProposals(o, settings.services.value)
      else [];
    withName + services
  }

  /** The metadata callback at a non-zero offset: the whole list, sorted. */
  function MetadataProposals(base: seq<Proposal>, settings: Settings, o: AssistOptions, projectName: string): seq<Proposal> {
    Sort(MetadataUnsorted(base, settings, o, projectName))
  }

  /** How the promise of the offset-0 branch settles. */
  function SettleTemplate(o: AssistOptions, metadata: Metadata): Settlement {
    match metadata
    case MetadataFailed => Rejected
    case Parents(names) =>
      if |names| == 0 then NeverSettles
      else Resolved(Sort([FilledTemplateProposal(o.delimiter, ProjectOf(names))]))
  }

  /** How the promise of the metadata branch at a non-zero offset settles. */
  function SettleMetadata(base: seq<Proposal>, settings: Settings, o: AssistOptions, metadata: Metadata): Settlement {
    match metadata
    case MetadataFailed => Rejected
    case Parents(names) =>
      if |names| == 0 then NeverSettles
      else Resolved(MetadataProposals(base, settings, o, ProjectOf(names)))
  }

  /** `computeContentAssist(editorContext, options)`: nothing outside a manifest file,
      and every list it delivers, at once or through the promise, in proposal order. */
  function ContentAssist(settings: Settings, o: AssistOptions, metadata: Metadata): (r: Reply)
    ensures !IsEnabled(settings.filePath) ==> r == Immediate([])
    ensures r.Immediate? ==> Sorted(r.proposals)
    ensures r.Deferred? && r.settlement.Resolved? ==> Sorted(r.settlement.proposals)
  {
    if !IsEnabled(settings.filePath) then
      Immediate([])
    else if o.offset == 0 then
      if settings.filePath.Some? then Deferred(SettleTemplate(o, metadata))
      else Immediate([TemplateProposal(o.delimiter)])
    else
      var base := StaticProposals(settings, o);
      if settings.filePath.Some?
        && (PrefixOf(NameKey, o.prefix) || PrefixOf(HostKey, o.prefix) || PrefixOf(ServicesKey, o.prefix))
      then Deferred(SettleMetadata(base, settings, o, metadata))
      else Immediate(Sort(base))
  }

  /** A static proposal: a keyword, list key, object key or cached service name that
      starts with the prefix, completed by the stub its kind takes. */
  predicate IsStaticProposal(settings: Settings, o: AssistOptions, p: Proposal) {
    (p.description in Keywords && StartsWith(p.description, o.prefix)
      && p == Completion(p.description, o.prefix, ""))
    || (p.description in ListKeys && StartsWith(p.description, o.prefix)
      && p == Completion(p.description, o.prefix, ListStub(o)))
    || (p.description in ObjectKeys && StartsWith(p.description, o.prefix)
      && p == Completion(p.description, o.prefix, ObjectStub(o)))
    || (settings.services.Some? && p.description in settings.services.value
      && StartsWith(p.description, o.prefix) && p == Completion(p.description, o.prefix, ""))
  }

  /** The synchronous proposals are exactly the candidates of each kind that start
      with the prefix. */
  lemma {:induction false} StaticProposalsSpec(settings: Settings, o: AssistOptions)
    ensures forall c :: c in Keywords && StartsWith(c, o.prefix) ==>
      Completion(c, o.prefix, "") in StaticProposals(settings, o)
    ensures forall c :: c in ListKeys && StartsWith(c, o.prefix) ==>
      Completion(c, o.prefix, ListStub(o)) in StaticProposals(settings, o)
    ensures forall c :: c in ObjectKeys && StartsWith(c, o.prefix) ==>
      Completion(c, o.prefix, ObjectStub(o)) in StaticProposals(settings, o)
    ensures settings.services.Some? ==> forall c :: c in settings.services.value && StartsWith(c, o.prefix) ==>
      Completion(c, o.prefix, "") in StaticProposals(settings, o)
    ensures forall p :: p in StaticProposals(settings, o) ==> IsStaticProposal(settings, o, p)
  {
  }

  /** The three stubs differ: none, a list item, an indented line. */
  lemma {:induction false} StubsDistinct(o: AssistOptions)
    ensures ListStub(o) != "" && ObjectStub(o) != "" && ListStub(o) != ObjectStub(o)
  {
    var l := ListStub(o);
    var b := ObjectStub(o);
    assert l[|l| - 2] == '-';
    assert b[|b| - 2] == ' ';
  }

  /** Counting over four candidate lists completed in turn with no stub, a list
      stub, an object stub and no stub again. */
  lemma {:induction false} FourKindsCount(ks: seq<string>, ls: seq<string>, os: seq<string>, vs: seq<string>,
                                          p: string, listStub: string, objectStub: string, c: string)
    requires StartsWith(c, p) && listStub != "" && objectStub != "" && listStub != objectStub
    ensures var all := PrefixProposals(ks, p, "") + PrefixProposals(ls, p, listStub)
        + PrefixProposals(os, p, objectStub) + PrefixProposals(vs, p, "");
      multiset(all)[Completion(c, p, "")] == multiset(ks)[c] + multiset(vs)[c]
      && multiset(all)[Completion(c, p, listStub)] == multiset(ls)[c]
      && multiset(all)[Completion(c, p, objectStub)] == multiset(os)[c]
  {
    var kp := PrefixProposals(ks, p, "");
    var lp := PrefixProposals(ls, p, listStub);
    var op := PrefixProposals(os, p, objectStub);
    var vp := PrefixProposals(vs, p, "");
    assert multiset(kp + lp + op + vp) == multiset(kp) + multiset(lp) + multiset(op) + multiset(vp);
    assert multiset(kp)[Completion(c, p, "")] == multiset(ks)[c]
      && multiset(vp)[Completion(c, p, "")] == multiset(vs)[c]
      && multiset(lp)[Completion(c, p, "")] == 0 && multiset(op)[Completion(c, p, "")] == 0 by {
      PrefixProposalsCount(ks, p, "", c);
      PrefixProposalsCount(vs, p, "", c);
      OtherStubAbsent(ls, p, listStub, c, "");
      OtherStubAbsent(os, p, objectStub, c, "");
    }
    assert multiset(lp)[Completion(c, p, listStub)] == multiset(ls)[c]
      && multiset(kp)[Completion(c, p, listStub)] == 0 && multiset(op)[Completion(c, p, listStub)] == 0
      && multiset(vp)[Completion(c, p, listStub)] == 0 by {
      PrefixProposalsCount(ls, p, listStub, c);
      OtherStubAbsent(ks, p, "", c, listStub);
      OtherStubAbsent(os, p, objectStub, c, listStub);
      OtherStubAbsent(vs, p, "", c, listStub);
    }
    assert multiset(op)[Completion(c, p, objectStub)] == multiset(os)[c]
      && multiset(kp)[Completion(c, p, objectStub)] == 0 && multiset(lp)[Completion(c, p, objectStub)] == 0
      && multiset(vp)[Completion(c, p, objectStub)] == 0 by {
      PrefixProposalsCount(os, p, objectStub, c);
      OtherStubAbsent(ks, p, "", c, objectStub);
      OtherStubAbsent(ls, p, listStub, c, objectStub);
      OtherStubAbsent(vs, p, "", c, objectStub);
    }
  }

  /** How often each static proposal occurs: once per copy of its candidate among
      the candidates of its kind. Keywords and cached services share the empty
      stub, so a service named like a keyword adds to that keyword's count. */
  lemma {:induction false} StaticProposalsCount(settings: Settings, o: AssistOptions, c: string)
    requires StartsWith(c, o.prefix)
    ensures multiset(StaticProposals(settings, o))[Completion(c, o.prefix, "")]
      == multiset(Keywords)[c] + (if settings.services.Some? then multiset(settings.services.value)[c] else 0)
    ensures multiset(StaticProposals(settings, o))[Completion(c, o.prefix, ListStub(o))] == multiset(ListKeys)[c]
    ensures multiset(StaticProposals(settings, o))[Completion(c, o.prefix, ObjectStub(o))] == multiset(ObjectKeys)[c]
  {
    var services := if settings.services.Some? then settings.services.value else [];
    assert StaticProposals(settings, o) == PrefixProposals(Keywords, o.prefix, "")
      + PrefixProposals(ListKeys, o.prefix, ListStub(o)) + PrefixProposals(ObjectKeys, o.prefix, ObjectStub(o))
      + PrefixProposals(services, o.prefix, "");
    StubsDistinct(o);
    FourKindsCount(Keywords, ListKeys, ObjectKeys, services, o.prefix, ListStub(o), ObjectStub(o), c);
  }

  /** The unfilled skeleton is never offered: an enabled editor always has a file
      path, so at offset 0 it goes through the metadata request. */
  lemma {:induction false} TemplateBranchUnreachable(settings: Settings, o: AssistOptions, metadata: Metadata)
    requires o.offset == 0
    ensures IsEnabled(settings.filePath) ==> ContentAssist(settings, o, metadata).Deferred?
    ensures ContentAssist(settings, o, metadata) != Immediate([TemplateProposal(o.delimiter)])
  {
    NotEnabledWithoutPath();
  }

  lemma {:induction false} SortSingleton(p: Proposal)
    ensures Sort([p]) == [p]
  {
    assert [p][1..] == [];
  }

  /** At offset 0 the reply promises the filled skeleton as the only proposal. */
  lemma {:induction false} FilledTemplateOffered(settings: Settings, o: AssistOptions, names: seq<string>)
    requires IsEnabled(settings.filePath) && o.offset == 0 && |names| > 0
    ensures ContentAssist(settings, o, Parents(names))
      == Deferred(Resolved([FilledTemplateProposal(o.delimiter, ProjectOf(names))]))
  {
    NotEnabledWithoutPath();
    SortSingleton(FilledTemplateProposal(o.delimiter, ProjectOf(names)));
  }

  /** A list comes back at once exactly when no metadata is needed, and it is the
      static proposals, reordered. */
  lemma {:induction false} ImmediateIsStatic(settings: Settings, o: AssistOptions, metadata: Metadata)
    requires IsEnabled(settings.filePath)
    ensures var r := ContentAssist(settings, o, metadata);
      r.Immediate? <==>
        o.offset != 0 && !(PrefixOf(NameKey, o.prefix) || PrefixOf(HostKey, o.prefix) || PrefixOf(ServicesKey, o.prefix))
    ensures var r := ContentAssist(settings, o, metadata);
      r.Immediate? ==> multiset(r.proposals) == multiset(StaticProposals(settings, o))
  {
    NotEnabledWithoutPath();
  }

  /** A failed metadata request rejects the promise; a file without parents makes the
      callback throw (`pop()` of an empty list), so the promise never settles. */
  lemma {:induction false} MetadataFailureModes(settings: Settings, o: AssistOptions)
    requires IsEnabled(settings.filePath)
    ensures var r := ContentAssist(settings, o, MetadataFailed);
      r.Deferred? ==> r.settlement == Rejected
    ensures var r := ContentAssist(settings, o, Parents([]));
      r.Deferred? ==> r.settlement == NeverSettles
  {
  }

  /** Every cached service gets its proposal, and only those, one per service in
      cache order. */
  lemma {:induction false} ServiceProposalsSpec(o: AssistOptions, services: seq<string>)
    requires PrefixOf(ServicesKey, o.prefix)
    ensures |ServiceProposals(o, services)| == |services|
    ensures forall k :: 0 <= k < |services| ==> ServiceProposals(o, services)[k] == ServiceProposal(o, services[k])
    ensures forall s :: s in services ==> ServiceProposal(o, s) in ServiceProposals(o, services)
    ensures forall p :: p in ServiceProposals(o, services) ==>
      exists s :: s in services && p == ServiceProposal(o, s)
  {
    var ps := ServiceProposals(o, services);
    forall s | s in services
      ensures ServiceProposal(o, s) in ps
    {
      var k :| 0 <= k < |services| && services[k] == s;
      assert ps[k] == ServiceProposal(o, s);
    }
    forall p | p in ps
      ensures exists s :: s in services && p == ServiceProposal(o, s)
    {
      var k :| 0 <= k < |ps| && ps[k] == p;
      assert services[k] in services;
    }
  }

  /** The description of a service proposal names the service, so distinct services
      give distinct proposals. */
  lemma {:induction false} ServiceProposalInjective(o: AssistOptions, a: string, b: string)
    requires PrefixOf(ServicesKey, o.prefix)
    ensures ServiceProposal(o, a) == ServiceProposal(o, b) ==> a == b
  {
    assert (ServicesKey + a)[|ServicesKey|..] == a;
    assert (ServicesKey + b)[|ServicesKey|..] == b;
  }

  /** A service listed twice in the cache is proposed twice. */
  lemma {:induction false} ServiceProposalsCount(o: AssistOptions, services: seq<string>, s: string)
    requires PrefixOf(ServicesKey, o.prefix)
    ensures multiset(ServiceProposals(o, services))[ServiceProposal(o, s)] == multiset(services)[s]
    decreases |services|
  {
    if |services| > 0 {
      var rest := services[1..];
      assert ServiceProposals(o, services) == [ServiceProposal(o, services[0])] + ServiceProposals(o, rest);
      assert services == [services[0]] + rest;
      ServiceProposalInjective(o, services[0], s);
      ServiceProposalsCount(o, rest, s);
    }
  }

  /** A proposal the metadata callback may deliver. */
  predicate IsMetadataProposal(base: seq<Proposal>, settings: Settings, o: AssistOptions, projectName: string, p: Proposal) {
    p in base
    || (PrefixOf(HostKey, o.prefix) && p == HostProposal(o, projectName))
    || (PrefixOf(NameKey, o.prefix) && p == NameProposal(o, projectName))
    || (PrefixOf(ServicesKey, o.prefix) && settings.services.Some?
        && exists s :: s in settings.services.value && p == ServiceProposal(o, s))
  }

  lemma {:induction false} MetadataUnsortedCount(base: seq<Proposal>, settings: Settings, o: AssistOptions, projectName: string)
    ensures multiset(MetadataUnsorted(base, settings, o, projectName)) == multiset(base)
      + (if PrefixOf(NameKey, o.prefix) then multiset{NameProposal(o, projectName)} else multiset{})
      + (if PrefixOf(HostKey, o.prefix) then multiset{HostProposal(o, projectName)} else multiset{})
      + (if PrefixOf(ServicesKey, o.prefix) && settings.services.Some?
         then multiset(ServiceProposals(o, settings.services.value)) else multiset{})
  {
    var withHost := if PrefixOf(HostKey, o.prefix) then [HostProposal(o, projectName)] + base else base;
    var withName := if PrefixOf(NameKey, o.prefix) then [NameProposal(o, projectName)] + withHost else withHost;
    var services :=
      if PrefixOf(ServicesKey, o.prefix) && settings.services.Some? then
        ServiceProposals(o, settings.services.value)
      else [];
    assert MetadataUnsorted(base, settings, o, projectName) == withName + services;
  }

  /** The list before sorting holds the synchronous proposals, the name and host
      proposals the prefix allows and the service proposals, and nothing else. */
  lemma {:induction false} MetadataUnsortedSpec(base: seq<Proposal>, settings: Settings, o: AssistOptions, projectName: string)
    ensures forall p :: p in base ==> p in MetadataUnsorted(base, settings, o, projectName)
    ensures PrefixOf(HostKey, o.prefix) ==>
      HostProposal(o, projectName) in MetadataUnsorted(base, settings, o, projectName)
    ensures PrefixOf(NameKey, o.prefix) ==>
      NameProposal(o, projectName) in MetadataUnsorted(base, settings, o, projectName)
    ensures PrefixOf(ServicesKey, o.prefix) && settings.services.Some? ==>
      forall s :: s in settings.services.value ==>
        ServiceProposal(o, s) in MetadataUnsorted(base, settings, o, projectName)
    ensures forall p :: p in MetadataUnsorted(base, settings, o, projectName) ==>
      IsMetadataProposal(base, settings, o, projectName, p)
    ensures multiset(MetadataUnsorted(base, settings, o, projectName)) == multiset(base)
      + (if PrefixOf(NameKey, o.prefix) then multiset{NameProposal(o, projectName)} else multiset{})
      + (if PrefixOf(HostKey, o.prefix) then multiset{HostProposal(o, projectName)} else multiset{})
      + (if PrefixOf(ServicesKey, o.prefix) && settings.services.Some?
         then multiset(ServiceProposals(o, settings.services.value)) else multiset{})
  {
    var withHost := if PrefixOf(HostKey, o.prefix) then [HostProposal(o, projectName)] + base else base;
    var withName := if PrefixOf(NameKey, o.prefix) then [NameProposal(o, projectName)] + withHost else withHost;
    var services :=
      if PrefixOf(ServicesKey, o.prefix) && settings.services.Some? then
        ServiceProposals(o, settings.services.value)
      else [];
    assert MetadataUnsorted(base, settings, o, projectName) == withName + services;
    if PrefixOf(ServicesKey, o.prefix) && settings.services.Some? {
      ServiceProposalsSpec(o, settings.services.value);
    }
    MetadataUnsortedCount(base, settings, o, projectName);
  }

  /** The metadata callback keeps every synchronous proposal, adds the name and host
      proposals the prefix allows and one proposal per cached service, and delivers
      them sorted; nothing else is added, and nothing is dropped or merged. */
  lemma {:induction false} MetadataProposalsSpec(base: seq<Proposal>, settings: Settings, o: AssistOptions, projectName: string)
    ensures var r := MetadataProposals(base, settings, o, projectName);
      Sorted(r) && forall p :: p in base ==> p in r
    ensures PrefixOf(HostKey, o.prefix) ==>
      HostProposal(o, projectName) in MetadataProposals(base, settings, o, projectName)
    ensures PrefixOf(NameKey, o.prefix) ==>
      NameProposal(o, projectName) in MetadataProposals(base, settings, o, projectName)
    ensures PrefixOf(ServicesKey, o.prefix) && settings.services.Some? ==>
      forall s :: s in settings.services.value ==>
        ServiceProposal(o, s) in MetadataProposals(base, settings, o, projectName)
    ensures forall p :: p in MetadataProposals(base, settings, o, projectName) ==>
      IsMetadataProposal(base, settings, o, projectName, p)
    ensures multiset(MetadataProposals(base, settings, o, projectName)) == multiset(base)
      + (if PrefixOf(NameKey, o.prefix) then multiset{NameProposal(o, projectName)} else multiset{})
      + (if PrefixOf(HostKey, o.prefix) then multiset{HostProposal(o, projectName)} else multiset{})
      + (if PrefixOf(ServicesKey, o.prefix) && settings.services.Some?
         then multiset(ServiceProposals(o, settings.services.value)) else multiset{})
  {
    var u := MetadataUnsorted(base, settings, o, projectName);
    MetadataUnsortedSpec(base, settings, o, projectName);
    SortSameElements(u);
  }

  /** Placing the name proposal in front does not keep it there: with an empty prefix
      the sort puts `buildpack: ` before `name: zzz`. */
  lemma {:induction false} NameProposalNotPinned(base: seq<Proposal>, settings: Settings, o: AssistOptions)
    requires o.prefix == "" && Completion("buildpack: ", "", "") in base
    ensures var r := MetadataProposals(base, settings, o, "zzz");
      |r| > 0 && r[0] != NameProposal(o, "zzz")
  {
    var b := Completion("buildpack: ", "", "");
    assert PrefixOf(NameKey, o.prefix) by {
      IndexOfZeroIsPrefix(NameKey, "");
    }
    assert !LexLe(NameProposal(o, "zzz").proposal, b.proposal);
    SortedBeforeName(base, settings, o, "zzz", b);
    var r := MetadataProposals(base, settings, o, "zzz");
    var k :| 0 <= k < |r| && r[k] == b;
  }

  /** An unshifted proposal does not stay in front of a synchronous one: every
      synchronous proposal whose text sorts strictly before the name proposal's comes
      before it in the delivered list. */
  lemma {:induction false} SortedBeforeName(base: seq<Proposal>, settings: Settings, o: AssistOptions, projectName: string, b: Proposal)
    requires PrefixOf(NameKey, o.prefix) && b in base
    requires !LexLe(NameProposal(o, projectName).proposal, b.proposal)
    ensures var r := MetadataProposals(base, settings, o, projectName);
      b in r && NameProposal(o, projectName) in r
      && forall i, j :: 0 <= i < |r| && 0 <= j < |r| && r[i] == b && r[j] == NameProposal(o, projectName) ==> i < j
  {
    MetadataProposalsSpec(base, settings, o, projectName);
    LexLeTotal(b.proposal, b.proposal);
  }

  /** With an empty project name the name proposal coincides with the `name: `
      keyword proposal, and the callback keeps both copies. */
  lemma {:induction false} EmptyNameKeepsBoth(base: seq<Proposal>, settings: Settings, o: AssistOptions)
    requires o.prefix == "" && multiset(base)[Completion(NameKey, "", "")] >= 1
    ensures multiset(MetadataProposals(base, settings, o, ""))[Completion(NameKey, "", "")] >= 2
  {
    var c := Completion(NameKey, "", "");
    var u := MetadataUnsorted(base, settings, o, "");
    assert PrefixOf(NameKey, o.prefix) && NameProposal(o, "") == c by {
      IndexOfZeroIsPrefix(NameKey, "");
    }
    assert multiset(u)[c] >= multiset(base)[c] + 1 by {
      MetadataUnsortedCount(base, settings, o, "");
    }
    assert multiset(MetadataProposals(base, settings, o, "")) == multiset(u);
  }

  /** The callback delivers real duplicates: with an empty prefix and a project label
      whose name is empty, the name proposal equals the `name: ` keyword proposal and
      the list holds it twice. */
  lemma {:induction false} EmptyNameDuplicatesKeyword(settings: Settings, o: AssistOptions)
    requires o.prefix == ""
    ensures multiset(MetadataProposals(StaticProposals(settings, o), settings, o, ""))[Completion(NameKey, "", "")] >= 2
  {
    assert multiset(StaticProposals(settings, o))[Completion(NameKey, "", "")] >= 1 by {
      StaticProposalsCount(settings, o, NameKey);
      assert Keywords[0] == NameKey;
    }
    EmptyNameKeepsBoth(StaticProposals(settings, o), settings, o);
  }
}
