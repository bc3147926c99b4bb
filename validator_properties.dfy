/**
 * What the whitelist registry and the decision loop guarantee: namespace
 * defaulting, case-insensitive keys and their shape, what the registry holds,
 * which objects are exempt, and which verdict the loop reaches, including
 * the order in which denials win.
 */
module ValidatorProperties {
  import opened Types
  import opened GoStrings
  import opened Validator

  // ---------------------------------------------------------------------
  // Registry keys
  // ---------------------------------------------------------------------

  /**
   * Namespace defaulting: a rule's key begins with its own namespace, or with
   * the namespace under evaluation when the rule leaves it empty, lower-cased
   * and followed by a separator; a rule that names a namespace gets the same
   * key whatever namespace is under evaluation.
   */
  lemma RuleKeyNamespace(rule: WhiteList, namespace: string, other: string)
    ensures Lower(Defaulted(rule, namespace).namespace) + [Slash] <= RuleKey(rule, namespace)
    ensures rule.namespace != "" ==> RuleKey(rule, namespace) == RuleKey(rule, other)
  {
    var ns := Lower(Defaulted(rule, namespace).namespace);
    var key := RuleKey(rule, namespace);
    assert key[..|ns| + 1] == ns + [Slash];
  }

  /**
   * Key shape, as a round trip: when no segment holds a separator, splitting
   * a rule's key on "/" gives back its lower-cased segments,
   * `namespace/version/kind/name` without a group and
   * `namespace/group/version/kind/name` with one.
   */
  lemma RuleKeySegments(rule: WhiteList, namespace: string)
    requires Slash !in Defaulted(rule, namespace).namespace
    requires Slash !in rule.group && Slash !in rule.version && Slash !in rule.kind && Slash !in rule.name
    ensures rule.group == "" ==>
      Split(RuleKey(rule, namespace))
        == [Lower(Defaulted(rule, namespace).namespace), Lower(rule.version), Lower(rule.kind), Lower(rule.name)]
    ensures rule.group != "" ==>
      Split(RuleKey(rule, namespace))
        == [Lower(Defaulted(rule, namespace).namespace), Lower(rule.group), Lower(rule.version), Lower(rule.kind), Lower(rule.name)]
  {
    var ns := Defaulted(rule, namespace).namespace;
    LowerKeepsSlashes(ns);
    LowerKeepsSlashes(rule.group);
    LowerKeepsSlashes(rule.version);
    LowerKeepsSlashes(rule.kind);
    LowerKeepsSlashes(rule.name);
    if rule.group == "" {
      SplitFour(Lower(ns), Lower(rule.version), Lower(rule.kind), Lower(rule.name));
    } else {
      SplitFive(Lower(ns), Lower(rule.group), Lower(rule.version), Lower(rule.kind), Lower(rule.name));
    }
  }

  /** Every stored key is lower-case throughout. */
  lemma RuleKeyIsLowerCase(rule: WhiteList, namespace: string)
    ensures IsLowerCase(RuleKey(rule, namespace))
  {
    var r := Defaulted(rule, namespace);
    LowerIsLowerCase(r.namespace);
    LowerIsLowerCase(r.group);
    LowerIsLowerCase(r.version);
    LowerIsLowerCase(r.kind);
    LowerIsLowerCase(r.name);
  }

  /** Rules that differ only in letter case are stored under the same key. */
  lemma RuleKeyCaseInsensitive(a: WhiteList, b: WhiteList, namespace: string)
    requires Lower(a.namespace) == Lower(b.namespace) && Lower(a.group) == Lower(b.group)
    requires Lower(a.version) == Lower(b.version) && Lower(a.kind) == Lower(b.kind) && Lower(a.name) == Lower(b.name)
    ensures RuleKey(a, namespace) == RuleKey(b, namespace)
  {
    LowerEmpty(a.namespace);
    LowerEmpty(b.namespace);
    LowerEmpty(a.group);
    LowerEmpty(b.group);
  }

  // ---------------------------------------------------------------------
  // Registry contents
  // ---------------------------------------------------------------------

  /** A key is whitelisted exactly when some rule is stored under it. */
  lemma RegistryLookup(namespace: string, rules: seq<WhiteList>, key: string)
    ensures Whitelisted(Registry(namespace, rules), key) <==> exists rule :: rule in rules && RuleKey(rule, namespace) == key
  {
  }

  /** A rule that repeats the key of an earlier rule (a duplicate, or one differing only in case) changes nothing. */
  lemma RepeatedKeyCollapses(namespace: string, rules: seq<WhiteList>, rule: WhiteList, i: nat)
    requires i < |rules| && RuleKey(rules[i], namespace) == RuleKey(rule, namespace)
    ensures Registry(namespace, rules + [rule]) == Registry(namespace, rules)
  {
    RegistrySnoc(namespace, rules, rule);
    assert RuleKey(rule, namespace) in KeysOf(namespace, rules);
  }

  /** The registry never holds more entries than there are rules. */
  lemma {:induction false} RegistrySize(namespace: string, rules: seq<WhiteList>)
    ensures |Registry(namespace, rules)| <= |rules|
    decreases |rules|
  {
    if rules != [] {
      var init, last := rules[..|rules| - 1], rules[|rules| - 1];
      assert rules == init + [last];
      RegistrySnoc(namespace, init, last);
      RegistrySize(namespace, init);
    }
  }

  // ---------------------------------------------------------------------
  // Exemption of one object
  // ---------------------------------------------------------------------

  /**
   * A readable object is exempt exactly when some rule is stored under its
   * lower-cased `namespace/apiVersion/kind/name` key or its lower-cased kind
   * is "event".
   */
  lemma ExemptIff(namespace: string, rules: seq<WhiteList>, r: Resource)
    requires Readable(r)
    ensures Exempt(Registry(namespace, rules), namespace, r) <==>
      || (exists rule :: rule in rules && RuleKey(rule, namespace) == ObjectKey(namespace, r.apiVersion.value, r.kind.value, r.name.value))
      || Lower(r.kind.value) == "event"
  {
  }

  /** Objects whose identities differ only in letter case are exempt alike, in namespaces differing only in case. */
  lemma ExemptCaseInsensitive(registry: map<string, bool>, ns1: string, ns2: string, r1: Resource, r2: Resource)
    requires Readable(r1) && Readable(r2) && Lower(ns1) == Lower(ns2)
    requires Lower(r1.name.value) == Lower(r2.name.value)
    requires Lower(r1.kind.value) == Lower(r2.kind.value)
    requires Lower(r1.apiVersion.value) == Lower(r2.apiVersion.value)
    ensures Exempt(registry, ns1, r1) <==> Exempt(registry, ns2, r2)
  {
  }

  /** Objects of a built-in kind are exempt whatever the registry holds, an empty one included. */
  lemma EventsAlwaysExempt(registry: map<string, bool>, namespace: string, r: Resource)
    requires Readable(r) && Lower(r.kind.value) == "event"
    ensures Exempt(registry, namespace, r)
    ensures ResourceVerdict(registry, namespace, r) == None
  {
  }

  /**
   * How a rule matches an object: namespaces, kinds and names equal up to
   * case, and the object's apiVersion equal up to case to the rule's version
   * (no group) or to `group/version` (with a group).
   */
  lemma RuleMatchesObject(rule: WhiteList, namespace: string, r: Resource)
    requires Readable(r)
    requires Lower(Defaulted(rule, namespace).namespace) == Lower(namespace)
    requires Lower(rule.kind) == Lower(r.kind.value) && Lower(rule.name) == Lower(r.name.value)
    requires rule.group == "" ==> Lower(r.apiVersion.value) == Lower(rule.version)
    requires rule.group != "" ==> Lower(r.apiVersion.value) == Lower(rule.group + [Slash] + rule.version)
    ensures RuleKey(rule, namespace) == ObjectKey(namespace, r.apiVersion.value, r.kind.value, r.name.value)
  {
    LowerConcat(rule.group, [Slash] + rule.version);
    LowerConcat([Slash], rule.version);
  }

  /** Splitting an object's key on "/" gives back its lower-cased segments when none holds a separator. */
  lemma ObjectKeySegments(namespace: string, apiVersion: string, kind: string, name: string)
    requires Slash !in namespace && Slash !in apiVersion && Slash !in kind && Slash !in name
    ensures Split(ObjectKey(namespace, apiVersion, kind, name)) == [Lower(namespace), Lower(apiVersion), Lower(kind), Lower(name)]
  {
    LowerKeepsSlashes(namespace);
    LowerKeepsSlashes(apiVersion);
    LowerKeepsSlashes(kind);
    LowerKeepsSlashes(name);
    SplitFour(Lower(namespace), Lower(apiVersion), Lower(kind), Lower(name));
  }

  /**
   * For a rule without a group and segments free of separators, matching is
   * exact: the rule's key is the object's key iff namespace, version, kind and
   * name agree up to case.
   */
  lemma GrouplessRuleMatchIff(rule: WhiteList, namespace: string, r: Resource)
    requires Readable(r) && rule.group == ""
    requires Slash !in Defaulted(rule, namespace).namespace && Slash !in namespace
    requires Slash !in rule.version && Slash !in rule.kind && Slash !in rule.name
    requires Slash !in r.apiVersion.value && Slash !in r.kind.value && Slash !in r.name.value
    ensures RuleKey(rule, namespace) == ObjectKey(namespace, r.apiVersion.value, r.kind.value, r.name.value) <==>
      && Lower(Defaulted(rule, namespace).namespace) == Lower(namespace)
      && Lower(rule.version) == Lower(r.apiVersion.value)
      && Lower(rule.kind) == Lower(r.kind.value)
      && Lower(rule.name) == Lower(r.name.value)
  {
    RuleKeySegments(rule, namespace);
    ObjectKeySegments(namespace, r.apiVersion.value, r.kind.value, r.name.value);
    if Lower(Defaulted(rule, namespace).namespace) == Lower(namespace) && Lower(rule.version) == Lower(r.apiVersion.value)
      && Lower(rule.kind) == Lower(r.kind.value) && Lower(rule.name) == Lower(r.name.value) {
      RuleMatchesObject(rule, namespace, r);
    }
  }

  /**
   * Splitting an object's key on "/" gives its lower-cased namespace, the
   * pieces of its lower-cased apiVersion, then its lower-cased kind and name,
   * when namespace, kind and name hold no separator.
   */
  lemma ObjectKeySplit(namespace: string, apiVersion: string, kind: string, name: string)
    requires Slash !in namespace && Slash !in kind && Slash !in name
    ensures Split(ObjectKey(namespace, apiVersion, kind, name))
         == [Lower(namespace)] + Split(Lower(apiVersion)) + [Lower(kind), Lower(name)]
  {
    LowerKeepsSlashes(namespace);
    LowerKeepsSlashes(kind);
    LowerKeepsSlashes(name);
    SplitAroundSecond(Lower(namespace), Lower(apiVersion), Lower(kind), Lower(name));
  }

  /**
   * The forward half of grouped matching: a rule with a group and an object
   * sharing a key agree on namespace, kind and name up to case, and the
   * object's lower-cased apiVersion is the rule's lower-cased `group/version`.
   */
  lemma GroupedKeyMatchFields(rule: WhiteList, namespace: string, r: Resource)
    requires Readable(r) && rule.group != ""
    requires Slash !in Defaulted(rule, namespace).namespace && Slash !in namespace
    requires Slash !in rule.group && Slash !in rule.version && Slash !in rule.kind && Slash !in rule.name
    requires Slash !in r.kind.value && Slash !in r.name.value
    requires RuleKey(rule, namespace) == ObjectKey(namespace, r.apiVersion.value, r.kind.value, r.name.value)
    ensures Lower(Defaulted(rule, namespace).namespace) == Lower(namespace)
    ensures Lower(r.apiVersion.value) == Lower(rule.group) + [Slash] + Lower(rule.version)
    ensures Lower(rule.kind) == Lower(r.kind.value) && Lower(rule.name) == Lower(r.name.value)
  {
    RuleKeySegments(rule, namespace);
    LowerKeepsSlashes(namespace);
    LowerKeepsSlashes(r.kind.value);
    LowerKeepsSlashes(r.name.value);
    var p := [Lower(Defaulted(rule, namespace).namespace), Lower(rule.group), Lower(rule.version), Lower(rule.kind), Lower(rule.name)];
    SplitAroundSecondIntoFive(Lower(namespace), Lower(r.apiVersion.value), Lower(r.kind.value), Lower(r.name.value), p);
  }

  /**
   * For a rule with a group and segments free of separators, matching is
   * exact in both directions: the rule's key is the object's key iff
   * namespace, kind and name agree up to case and the object's lower-cased
   * apiVersion is the rule's lower-cased `group/version`.
   */
  lemma GroupedRuleMatchIff(rule: WhiteList, namespace: string, r: Resource)
    requires Readable(r) && rule.group != ""
    requires Slash !in Defaulted(rule, namespace).namespace && Slash !in namespace
    requires Slash !in rule.group && Slash !in rule.version && Slash !in rule.kind && Slash !in rule.name
    requires Slash !in r.kind.value && Slash !in r.name.value
    ensures RuleKey(rule, namespace) == ObjectKey(namespace, r.apiVersion.value, r.kind.value, r.name.value) <==>
      && Lower(Defaulted(rule, namespace).namespace) == Lower(namespace)
      && Lower(r.apiVersion.value) == Lower(rule.group) + [Slash] + Lower(rule.version)
      && Lower(rule.kind) == Lower(r.kind.value)
      && Lower(rule.name) == Lower(r.name.value)
  {
    if RuleKey(rule, namespace) == ObjectKey(namespace, r.apiVersion.value, r.kind.value, r.name.value) {
      GroupedKeyMatchFields(rule, namespace, r);
    }
    if Lower(r.apiVersion.value) == Lower(rule.group) + [Slash] + Lower(rule.version) {
      assert Lower(rule.group + [Slash] + rule.version) == Lower(rule.group) + [Slash] + Lower(rule.version) by {
        LowerConcat(rule.group + [Slash], rule.version);
        LowerConcat(rule.group, [Slash]);
        assert Lower([Slash]) == [Slash];
      }
      if Lower(Defaulted(rule, namespace).namespace) == Lower(namespace)
        && Lower(rule.kind) == Lower(r.kind.value) && Lower(rule.name) == Lower(r.name.value) {
        RuleMatchesObject(rule, namespace, r);
      }
    }
  }

  /** A rule in the document that matches an object makes the object exempt. */
  lemma MatchingRuleExempts(namespace: string, rules: seq<WhiteList>, i: nat, r: Resource)
    requires i < |rules| && Readable(r)
    requires RuleKey(rules[i], namespace) == ObjectKey(namespace, r.apiVersion.value, r.kind.value, r.name.value)
    ensures Exempt(Registry(namespace, rules), namespace, r)
    ensures ResourceVerdict(Registry(namespace, rules), namespace, r) == None
  {
    assert RuleKey(rules[i], namespace) in KeysOf(namespace, rules);
  }

  /** A rule that leaves the name empty is stored under a key ending in the separator. */
  lemma EmptyNameKeyEndsInSlash(rule: WhiteList, namespace: string)
    requires rule.name == ""
    ensures |RuleKey(rule, namespace)| > 0 && RuleKey(rule, namespace)[|RuleKey(rule, namespace)| - 1] == Slash
  {
  }

  /**
   * A rule without a name is no wildcard: it never exempts an object whose
   * name is non-empty and does not end in the separator.
   */
  lemma EmptyNameRuleMissesNamedObject(rule: WhiteList, namespace: string, r: Resource)
    requires rule.name == "" && Readable(r)
    requires r.name.value != [] && r.name.value[|r.name.value| - 1] != Slash
    ensures RuleKey(rule, namespace) != ObjectKey(namespace, r.apiVersion.value, r.kind.value, r.name.value)
  {
    var name := r.name.value;
    var key := ObjectKey(namespace, r.apiVersion.value, r.kind.value, name);
    LowerKeepsSlashes(name);
    assert key[|key| - 1] == Lower(name)[|name| - 1];
    EmptyNameKeyEndsInSlash(rule, namespace);
  }

  /** So a document made only of nameless rules exempts no named object of a non-built-in kind. */
  lemma NamelessRulesExemptNothing(namespace: string, rules: seq<WhiteList>, r: Resource)
    requires forall i :: 0 <= i < |rules| ==> rules[i].name == ""
    requires Readable(r) && Lower(r.kind.value) != "event"
    requires r.name.value != [] && r.name.value[|r.name.value| - 1] != Slash
    ensures !Exempt(Registry(namespace, rules), namespace, r)
  {
    var key := ObjectKey(namespace, r.apiVersion.value, r.kind.value, r.name.value);
    forall rule | rule in rules
      ensures RuleKey(rule, namespace) != key
    {
      EmptyNameRuleMissesNamedObject(rule, namespace, r);
    }
  }

  /**
   * Keys are plain `/`-joined strings, so a separator inside a field shifts
   * the segments: a group-less rule whose namespace is `namespace/group` is
   * stored under the key of the rule for `group` in `namespace`, and so
   * exempts the object of apiVersion `group/version` living in `namespace`.
   */
  lemma SeparatorCollision(namespace: string, group: string, version: string, kind: string, name: string)
    requires namespace != "" && group != ""
    ensures
      var shifted := WhiteList("", version, kind, name, namespace + [Slash] + group);
      var obj := Resource(Some(name), Some(kind), Some(group + [Slash] + version));
      && RuleKey(shifted, namespace) == RuleKey(WhiteList(group, version, kind, name, namespace), namespace)
      && Exempt(Registry(namespace, [shifted]), namespace, obj)
  {
    var shifted := WhiteList("", version, kind, name, namespace + [Slash] + group);
    var obj := Resource(Some(name), Some(kind), Some(group + [Slash] + version));
    assert Lower([Slash]) == [Slash];
    LowerConcat(namespace + [Slash], group);
    LowerConcat(namespace, [Slash]);
    RuleMatchesObject(WhiteList(group, version, kind, name, namespace), namespace, obj);
    MatchingRuleExempts(namespace, [shifted], 0, obj);
  }

  // ---------------------------------------------------------------------
  // The decision loop
  // ---------------------------------------------------------------------

  predicate Passes(registry: map<string, bool>, namespace: string, r: Resource)
  {
    Readable(r) && Exempt(registry, namespace, r)
  }

  predicate KindPasses(registry: map<string, bool>, namespace: string, l: ListResult)
  {
    l.Listed? && forall j :: 0 <= j < |l.resources| ==> Passes(registry, namespace, l.resources[j])
  }

  lemma ResourceVerdictNone(registry: map<string, bool>, namespace: string, r: Resource)
    ensures ResourceVerdict(registry, namespace, r) == None <==> Passes(registry, namespace, r)
  {
  }

  /** A kind's objects raise no denial exactly when every one of them is readable and exempt. */
  lemma {:induction false} ResourcesPassIff(registry: map<string, bool>, namespace: string, rs: seq<Resource>)
    ensures ResourcesVerdict(registry, namespace, rs) == None <==>
      forall j :: 0 <= j < |rs| ==> Passes(registry, namespace, rs[j])
    decreases |rs|
  {
    if rs != [] {
      ResourceVerdictNone(registry, namespace, rs[0]);
      ResourcesPassIff(registry, namespace, rs[1..]);
      assert forall j :: 1 <= j < |rs| ==> rs[j] == rs[1..][j - 1];
    }
  }

  /** The scan raises no denial exactly when every kind was listed and every object passes. */
  lemma {:induction false} ScanPassesIff(registry: map<string, bool>, namespace: string, lists: seq<ListResult>)
    ensures ScanVerdict(registry, namespace, lists) == None <==>
      forall i :: 0 <= i < |lists| ==> KindPasses(registry, namespace, lists[i])
    decreases |lists|
  {
    if lists != [] {
      match lists[0]
      case ListError =>
      case Listed(rs) => ResourcesPassIff(registry, namespace, rs);
      ScanPassesIff(registry, namespace, lists[1..]);
      assert forall i :: 1 <= i < |lists| ==> lists[i] == lists[1..][i - 1];
    }
  }

  /**
   * A deletion is allowed exactly when the namespace lookup did not report
   * NotFound, every kind was listed and every object in it is readable and
   * exempt; in particular with no kinds, or no objects, it is allowed.
   */
  lemma DecideAllowsIff(namespace: string, file: WhiteListFile, get: GetOutcome, lists: seq<ListResult>)
    ensures Decide(namespace, file, get, lists) == Allowed <==>
      && get != NotFound
      && forall i :: 0 <= i < |lists| ==> KindPasses(Registry(namespace, Rules(file)), namespace, lists[i])
  {
    ScanPassesIff(Registry(namespace, Rules(file)), namespace, lists);
  }

  /** A namespace reported NotFound is denied, whatever it holds. */
  lemma NotFoundIsDenied(namespace: string, file: WhiteListFile, lists: seq<ListResult>)
    ensures Decide(namespace, file, NotFound, lists) == Denied(NamespaceNotFound)
  {
  }

  /** Any other lookup error is ignored: the verdict is the one for a namespace that was found. */
  lemma OtherLookupErrorIgnored(namespace: string, file: WhiteListFile, lists: seq<ListResult>)
    ensures Decide(namespace, file, OtherError, lists) == Decide(namespace, file, Found, lists)
  {
  }

  /** A namespace with no objects of any catalogued kind is allowed once found. */
  lemma EmptyNamespaceAllowed(namespace: string, file: WhiteListFile, get: GetOutcome, lists: seq<ListResult>)
    requires get != NotFound
    requires forall i :: 0 <= i < |lists| ==> lists[i] == Listed([])
    ensures Decide(namespace, file, get, lists) == Allowed
  {
    DecideAllowsIff(namespace, file, get, lists);
  }

  /** Fail-closed: a listing error for any kind denies, whatever the other kinds hold. */
  lemma ListErrorDenies(namespace: string, file: WhiteListFile, get: GetOutcome, lists: seq<ListResult>, i: nat)
    requires i < |lists| && lists[i] == ListError
    ensures Decide(namespace, file, get, lists).Denied?
  {
    DecideAllowsIff(namespace, file, get, lists);
  }

  /** Fail-closed: an object whose name, kind or apiVersion cannot be read denies. */
  lemma UnreadableDenies(namespace: string, file: WhiteListFile, get: GetOutcome, lists: seq<ListResult>, i: nat, j: nat)
    requires i < |lists| && lists[i].Listed? && j < |lists[i].resources|
    requires !Readable(lists[i].resources[j])
    ensures Decide(namespace, file, get, lists).Denied?
  {
    DecideAllowsIff(namespace, file, get, lists);
  }

  /** A readable object that is not exempt denies. */
  lemma BlockingObjectDenies(namespace: string, file: WhiteListFile, get: GetOutcome, lists: seq<ListResult>, i: nat, j: nat)
    requires i < |lists| && lists[i].Listed? && j < |lists[i].resources|
    requires Readable(lists[i].resources[j])
    requires !Exempt(Registry(namespace, Rules(file)), namespace, lists[i].resources[j])
    ensures Decide(namespace, file, get, lists).Denied?
  {
    DecideAllowsIff(namespace, file, get, lists);
  }

  /** Within one kind, the first object that raises a denial decides the kind's denial. */
  lemma {:induction false} FirstResourceDenialWins(registry: map<string, bool>, namespace: string, rs: seq<Resource>, j: nat)
    requires j < |rs| && ResourceVerdict(registry, namespace, rs[j]).Some?
    requires forall k :: 0 <= k < j ==> Passes(registry, namespace, rs[k])
    ensures ResourcesVerdict(registry, namespace, rs) == ResourceVerdict(registry, namespace, rs[j])
    decreases j
  {
    if j > 0 {
      ResourceVerdictNone(registry, namespace, rs[0]);
      assert forall k :: 0 <= k < j - 1 ==> rs[1..][k] == rs[k + 1];
      FirstResourceDenialWins(registry, namespace, rs[1..], j - 1);
    }
  }

  /** Across kinds, the first kind that raises a denial decides the verdict, in catalog order. */
  lemma {:induction false} FirstKindDenialWins(registry: map<string, bool>, namespace: string, lists: seq<ListResult>, i: nat)
    requires i < |lists| && KindVerdict(registry, namespace, lists[i]).Some?
    requires forall k :: 0 <= k < i ==> KindPasses(registry, namespace, lists[k])
    ensures ScanVerdict(registry, namespace, lists) == KindVerdict(registry, namespace, lists[i])
    decreases i
  {
    if i > 0 {
      assert KindVerdict(registry, namespace, lists[0]) == None by {
        ResourcesPassIff(registry, namespace, lists[0].resources);
      }
      assert forall k :: 0 <= k < i - 1 ==> lists[1..][k] == lists[k + 1];
      FirstKindDenialWins(registry, namespace, lists[1..], i - 1);
    }
  }

  /**
   * Every denial the scan reports comes from a kind whose predecessors all
   * passed: a listing error, or an object of that kind.
   */
  lemma {:induction false} DenialHasSource(registry: map<string, bool>, namespace: string, lists: seq<ListResult>)
    requires ScanVerdict(registry, namespace, lists).Some?
    ensures exists i :: (0 <= i < |lists|
      && (forall k :: 0 <= k < i ==> KindPasses(registry, namespace, lists[k]))
      && KindVerdict(registry, namespace, lists[i]) == ScanVerdict(registry, namespace, lists))
    decreases |lists|
  {
    if KindVerdict(registry, namespace, lists[0]).Some? {
      assert KindVerdict(registry, namespace, lists[0]) == ScanVerdict(registry, namespace, lists);
    } else {
      DenialHasSource(registry, namespace, lists[1..]);
      var i :| 0 <= i < |lists[1..]|
        && (forall k :: 0 <= k < i ==> KindPasses(registry, namespace, lists[1..][k]))
        && KindVerdict(registry, namespace, lists[1..][i]) == ScanVerdict(registry, namespace, lists[1..]);
      match lists[0]
      case Listed(rs) => ResourcesPassIff(registry, namespace, rs);
      assert KindPasses(registry, namespace, lists[0]);
      assert forall k :: 1 <= k < i + 1 ==> lists[k] == lists[1..][k - 1];
      assert lists[i + 1] == lists[1..][i];
    }
  }

  /**
   * The first non-exempt object, after only passing objects and kinds, is the
   * one the denial names: `apiVersion/kind/name` in its own case, with the
   * namespace.
   */
  lemma FirstBlockerIsNamed(namespace: string, file: WhiteListFile, get: GetOutcome, lists: seq<ListResult>, i: nat, j: nat)
    requires get != NotFound
    requires i < |lists| && lists[i].Listed? && j < |lists[i].resources|
    requires forall k :: 0 <= k < i ==> KindPasses(Registry(namespace, Rules(file)), namespace, lists[k])
    requires forall k :: 0 <= k < j ==> Passes(Registry(namespace, Rules(file)), namespace, lists[i].resources[k])
    requires
      var r := lists[i].resources[j];
      Readable(r) && !Exempt(Registry(namespace, Rules(file)), namespace, r)
    ensures
      var r := lists[i].resources[j];
      Decide(namespace, file, get, lists)
        == Denied(NotWhitelisted(Describe(r.apiVersion.value, r.kind.value, r.name.value), namespace))
  {
    var registry := Registry(namespace, Rules(file));
    FirstResourceDenialWins(registry, namespace, lists[i].resources, j);
    FirstKindDenialWins(registry, namespace, lists, i);
  }

  /** The first failing listing, after only passing kinds, denies with the listing-failure message. */
  lemma FirstListErrorIsReported(namespace: string, file: WhiteListFile, get: GetOutcome, lists: seq<ListResult>, i: nat)
    requires get != NotFound
    requires i < |lists| && lists[i] == ListError
    requires forall k :: 0 <= k < i ==> KindPasses(Registry(namespace, Rules(file)), namespace, lists[k])
    ensures Decide(namespace, file, get, lists) == Denied(ListFailed)
  {
    FirstKindDenialWins(Registry(namespace, Rules(file)), namespace, lists, i);
  }

  // ---------------------------------------------------------------------
  // Scenarios
  // ---------------------------------------------------------------------

  /** A namespace holding only events is allowed even when the whitelist document cannot be read. */
  lemma OnlyEventsAllowedWithoutDocument(namespace: string)
    ensures Decide(namespace, ReadFailed, Found, [Listed([Resource(Some("e1"), Some("Event"), Some("v1"))])]) == Allowed
  {
    var lists := [Listed([Resource(Some("e1"), Some("Event"), Some("v1"))])];
    assert Lower("Event") == "event";
    DecideAllowsIff(namespace, ReadFailed, Found, lists);
  }

  /**
   * A rule that leaves the namespace empty, names the version and uses other
   * letter case exempts the root CA ConfigMap of `team-a`.
   */
  lemma RootCaWhitelisted()
    ensures
      var file := Parsed([WhiteList("", "V1", "ConfigMap", "kube-root-ca.crt", "")]);
      var lists := [Listed([Resource(Some("kube-root-ca.crt"), Some("configmap"), Some("v1"))])];
      Decide("team-a", file, Found, lists) == Allowed
  {
    var rules := [WhiteList("", "V1", "ConfigMap", "kube-root-ca.crt", "")];
    var r := Resource(Some("kube-root-ca.crt"), Some("configmap"), Some("v1"));
    assert Lower("V1") == "v1";
    assert Lower("ConfigMap") == "configmap";
    assert Lower("configmap") == "configmap";
    RuleMatchesObject(rules[0], "team-a", r);
    MatchingRuleExempts("team-a", rules, 0, r);
    assert KindPasses(Registry("team-a", rules), "team-a", Listed([r]));
    DecideAllowsIff("team-a", Parsed(rules), Found, [Listed([r])]);
  }

  /**
   * The same rule without a version is stored under an empty version segment,
   * so the ConfigMap (apiVersion "v1") is not exempt and the deletion is denied.
   */
  lemma RootCaRuleWithoutVersionDenied()
    ensures
      var file := Parsed([WhiteList("", "", "ConfigMap", "kube-root-ca.crt", "")]);
      var lists := [Listed([Resource(Some("kube-root-ca.crt"), Some("ConfigMap"), Some("v1"))])];
      Decide("team-a", file, Found, lists)
        == Denied(NotWhitelisted("v1/ConfigMap/kube-root-ca.crt", "team-a"))
  {
    var rules := [WhiteList("", "", "ConfigMap", "kube-root-ca.crt", "")];
    var r := Resource(Some("kube-root-ca.crt"), Some("ConfigMap"), Some("v1"));
    VersionlessRuleMissesRootCa(rules, r);
    assert Describe("v1", "ConfigMap", "kube-root-ca.crt") == "v1/ConfigMap/kube-root-ca.crt";
    FirstBlockerIsNamed("team-a", Parsed(rules), Found, [Listed([r])], 0, 0);
  }

  /** The version-less rule's key is two characters shorter than the ConfigMap's, so it cannot match. */
  lemma VersionlessRuleMissesRootCa(rules: seq<WhiteList>, r: Resource)
    requires rules == [WhiteList("", "", "ConfigMap", "kube-root-ca.crt", "")]
    requires r == Resource(Some("kube-root-ca.crt"), Some("ConfigMap"), Some("v1"))
    ensures Readable(r) && !Exempt(Registry("team-a", rules), "team-a", r)
  {
    LowerIsLowerCase("team-a");
    LowerIsLowerCase("");
    LowerIsLowerCase("v1");
    LowerIsLowerCase("ConfigMap");
    LowerIsLowerCase("kube-root-ca.crt");
    assert |RuleKey(rules[0], "team-a")| + 2 == |ObjectKey("team-a", "v1", "ConfigMap", "kube-root-ca.crt")|;
    assert KeysOf("team-a", rules) == {RuleKey(rules[0], "team-a")};
  }

  /** A Deployment with no matching rule blocks, and the denial names it. */
  lemma LegacyDeploymentDenied()
    ensures
      var lists := [Listed([Resource(Some("legacy-job"), Some("Deployment"), Some("apps/v1"))])];
      Decide("team-b", Parsed([]), Found, lists)
        == Denied(NotWhitelisted("apps/v1/Deployment/legacy-job", "team-b"))
  {
    var r := Resource(Some("legacy-job"), Some("Deployment"), Some("apps/v1"));
    assert KeysOf("team-b", []) == {};
    LowerIsLowerCase("Deployment");
    assert !Exempt(Registry("team-b", []), "team-b", r);
    assert Describe("apps/v1", "Deployment", "legacy-job") == "apps/v1/Deployment/legacy-job";
    FirstBlockerIsNamed("team-b", Parsed([]), Found, [Listed([r])], 0, 0);
  }
}
