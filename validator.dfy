/**
 * The admission decision for deleting a namespace: the whitelist registry
 * built from the whitelist document (`WhiteListInit`) and the decision loop
 * over every catalogued kind's objects in the namespace (`Validate`).
 */
module Validator {
  import opened Types
  import opened GoStrings

  /** The whitelist document as it reached the JSON decoder. */
  datatype WhiteListFile =
    | ReadFailed
    | ParseFailed
    | Parsed(whitelists: seq<WhiteList>)

  /** The rules the registry is built from: none when the document could not be read or parsed. */
  function Rules(file: WhiteListFile): seq<WhiteList>
  {
    if file.Parsed? then file.whitelists else []
  }

  /** Kinds that never block a deletion, keyed by lower-cased kind. */
  const BuiltinWhitelist: map<string, bool> := map["event" := true]

  /** A rule with an empty namespace takes the namespace under evaluation. */
  function Defaulted(rule: WhiteList, namespace: string): WhiteList
  {
    if rule.namespace == "" then rule.(namespace := namespace) else rule
  }

  /**
   * The key a rule is stored under, built from the rule's own namespace:
   * `namespace/version/kind/name`, or `namespace/group/version/kind/name`
   * when the rule names a group, every segment lower-cased.
   */
  function StoredKey(rule: WhiteList): string
  {
    if rule.group == "" then
      Lower(rule.namespace) + [Slash] + Lower(rule.version) + [Slash] + Lower(rule.kind) + [Slash] + Lower(rule.name)
    else
      Lower(rule.namespace) + [Slash] + Lower(rule.group) + [Slash] + Lower(rule.version) + [Slash]
        + Lower(rule.kind) + [Slash] + Lower(rule.name)
  }

  /** The key a rule is stored under when the registry is built for `namespace`. */
  function RuleKey(rule: WhiteList, namespace: string): string
  {
    StoredKey(Defaulted(rule, namespace))
  }

  function KeysOf(namespace: string, rules: seq<WhiteList>): set<string>
  {
    set rule | rule in rules :: RuleKey(rule, namespace)
  }

  /** The registry the rules give for `namespace`: every rule's key, mapped to true. */
  function Registry(namespace: string, rules: seq<WhiteList>): map<string, bool>
  {
    map key | key in KeysOf(namespace, rules) :: true
  }

  /** A lookup in a Go `map[string]bool`: an absent key reads as false. */
  predicate Whitelisted(registry: map<string, bool>, key: string)
  {
    key in registry && registry[key]
  }

  /** Adding one rule to the end of the list adds exactly its key. */
  lemma RegistrySnoc(namespace: string, rules: seq<WhiteList>, rule: WhiteList)
    ensures Registry(namespace, rules + [rule]) == Registry(namespace, rules)[RuleKey(rule, namespace) := true]
  {
    assert KeysOf(namespace, rules + [rule]) == KeysOf(namespace, rules) + {RuleKey(rule, namespace)};
  }

  /**
   * `WhiteListInit`: an unreadable or unparsable document is logged and
   * yields the empty registry; otherwise every rule, after namespace
   * defaulting, is stored under its lower-cased key.
   */
  method WhiteListInit(namespace: string, file: WhiteListFile) returns (memory: map<string, bool>)
    ensures forall key :: key in memory <==> exists rule :: rule in Rules(file) && RuleKey(rule, namespace) == key
    ensures forall key | key in memory :: memory[key]
    ensures !file.Parsed? ==> memory == map[]
    ensures memory == Registry(namespace, Rules(file))
  {
    var whitelists: seq<WhiteList> := [];
    if file.Parsed? {
      whitelists := file.whitelists;
    }
    memory := map[];
    for i := 0 to |whitelists|
      invariant memory == Registry(namespace, whitelists[..i])
    {
      var whitelist := whitelists[i];
      if whitelist.namespace == "" {
        whitelist := whitelist.(namespace := namespace);
      }
      assert whitelist == Defaulted(whitelists[i], namespace);
      memory := memory[StoredKey(whitelist) := true];
      RegistrySnoc(namespace, whitelists[..i], whitelists[i]);
      assert whitelists[..i + 1] == whitelists[..i] + [whitelists[i]];
    }
    assert whitelists[..|whitelists|] == whitelists;
  }

  /** Outcome of looking the namespace up before the scan. */
  datatype GetOutcome = Found | NotFound | OtherError

  /** One object as returned by a lister; each identity field may be unreadable. */
  datatype Resource = Resource(name: Option<string>, kind: Option<string>, apiVersion: Option<string>)

  /** One catalogued kind's listing in the namespace. */
  datatype ListResult = ListError | Listed(resources: seq<Resource>)

  /** Why a deletion is denied; each case carries the fields its message reports. */
  datatype Reason =
    | NamespaceNotFound
    | ListFailed
    | MetadataUnreadable(namespace: string)
    | NotWhitelisted(resource: string, namespace: string)

  /** The pair `(allowed, status)` that `Validate` returns. */
  datatype Verdict = Allowed | Denied(reason: Reason)

  /** The key an object is looked up under: `namespace/apiVersion/kind/name`, lower-cased. */
  function ObjectKey(namespace: string, apiVersion: string, kind: string, name: string): string
  {
    Lower(namespace) + [Slash] + Lower(apiVersion) + [Slash] + Lower(kind) + [Slash] + Lower(name)
  }

  predicate Readable(r: Resource)
  {
    r.name.Some? && r.kind.Some? && r.apiVersion.Some?
  }

  /** A readable object is exempt if its key is whitelisted or its kind is built in. */
  predicate Exempt(registry: map<string, bool>, namespace: string, r: Resource)
    requires Readable(r)
  {
    || Whitelisted(registry, ObjectKey(namespace, r.apiVersion.value, r.kind.value, r.name.value))
    || Whitelisted(BuiltinWhitelist, Lower(r.kind.value))
  }

  /** `apiVersion/kind/name` as the denial message reports it, in the object's own case. */
  function Describe(apiVersion: string, kind: string, name: string): string
  {
    apiVersion + [Slash] + kind + [Slash] + name
  }

  /** The denial one object causes, or None if it passes. */
  function ResourceVerdict(registry: map<string, bool>, namespace: string, r: Resource): Option<Reason>
  {
    if !Readable(r) then Some(MetadataUnreadable(namespace))
    else if Exempt(registry, namespace, r) then None
    else Some(NotWhitelisted(Describe(r.apiVersion.value, r.kind.value, r.name.value), namespace))
  }

  /** The first denial among one kind's objects, in listing order. */
  function ResourcesVerdict(registry: map<string, bool>, namespace: string, rs: seq<Resource>): Option<Reason>
  {
    if rs == [] then None
    else if ResourceVerdict(registry, namespace, rs[0]).Some? then ResourceVerdict(registry, namespace, rs[0])
    else ResourcesVerdict(registry, namespace, rs[1..])
  }

  /** The first denial one kind's listing causes. */
  function KindVerdict(registry: map<string, bool>, namespace: string, l: ListResult): Option<Reason>
  {
    match l
    case ListError => Some(ListFailed)
    case Listed(rs) => ResourcesVerdict(registry, namespace, rs)
  }

  /** The first denial over all kinds, in catalog order. */
  function ScanVerdict(registry: map<string, bool>, namespace: string, lists: seq<ListResult>): Option<Reason>
  {
    if lists == [] then None
    else if KindVerdict(registry, namespace, lists[0]).Some? then KindVerdict(registry, namespace, lists[0])
    else ScanVerdict(registry, namespace, lists[1..])
  }

  /** The verdict for deleting `namespace`, given the whitelist document, the namespace lookup and the listings. */
  function Decide(namespace: string, file: WhiteListFile, get: GetOutcome, lists: seq<ListResult>): Verdict
  {
    if get == NotFound then Denied(NamespaceNotFound)
    else
      match ScanVerdict(Registry(namespace, Rules(file)), namespace, lists)
      case None => Allowed
      case Some(reason) => Denied(reason)
  }

  /**
   * `Validate`: builds the registry, denies a namespace that is not found,
   * then walks every kind's listing and every object in it, returning the
   * first denial; if none is found the deletion is allowed.
   */
  method Validate(namespace: string, file: WhiteListFile, get: GetOutcome, lists: seq<ListResult>)
    returns (verdict: Verdict)
    ensures verdict == Decide(namespace, file, get, lists)
  {
    var whitelistMemory := WhiteListInit(namespace, file);
    if get == NotFound {
      return Denied(NamespaceNotFound);
    }
    for i := 0 to |lists|
      invariant ScanVerdict(whitelistMemory, namespace, lists) == ScanVerdict(whitelistMemory, namespace, lists[i..])
    {
      assert lists[i..][1..] == lists[i + 1..];
      if lists[i].ListError? {
        return Denied(ListFailed);
      }
      var resources := lists[i].resources;
      for j := 0 to |resources|
        invariant ResourcesVerdict(whitelistMemory, namespace, resources)
               == ResourcesVerdict(whitelistMemory, namespace, resources[j..])
      {
        assert resources[j..][1..] == resources[j + 1..];
        var resource := resources[j];
        var deny := false;
        if resource.name.None? {
          deny := true;
        }
        if resource.kind.None? {
          deny := true;
        }
        if resource.apiVersion.None? {
          deny := true;
        }
        if deny {
          return Denied(MetadataUnreadable(namespace));
        }
        var name, kind, apiVersion := resource.name.value, resource.kind.value, resource.apiVersion.value;
        var key := ObjectKey(namespace, apiVersion, kind, name);
        if key in whitelistMemory && whitelistMemory[key] {
          continue;
        } else if Lower(kind) in BuiltinWhitelist && BuiltinWhitelist[Lower(kind)] {
          continue;
        } else {
          return Denied(NotWhitelisted(Describe(apiVersion, kind, name), namespace));
        }
      }
    }
    return Allowed;
  }
}
