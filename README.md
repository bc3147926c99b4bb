# Namespace termination locker — model of the admission decision

The system is a Kubernetes validating admission webhook. It refuses to
delete a namespace while the namespace still holds objects that an
operator has not whitelisted. This project models and proves two pieces of
its core.

- **The decision** (package `validator`):
  - `WhiteListInit` turns a whitelist document into a registry of
    lower-cased `namespace/[group/]version/kind/name` keys.
  - `Validate` then does three things in order:
    1. It denies a namespace whose lookup says NotFound.
    2. It walks the listing of every catalogued resource kind, and within
       it every object.
    3. It denies at the first listing error, the first object whose
       metadata cannot be read, or the first object that is neither
       whitelisted nor of the built-in `event` kind. If there is no such
       case, it allows the deletion.
- **The kind catalog** (the catalog part of `clientInit` in package
  `server`): from the discovery result, every resource that is namespaced
  and has a verb lower-casing to `list` becomes one
  `(group, version, plural name)` entry, in discovery order. The group and
  version come from splitting the list's `GroupVersion` on `/`.

Modules:

| module | file | content |
|---|---|---|
| `GoStrings` | `go_strings.dfy` | `strings.ToLower` (ASCII), `strings.Split` on `/`, and their laws |
| `Types` | `types.dfy` | `Option` and the `WhiteList` rule record |
| `Validator` | `validator.dfy` | registry (`WhiteListInit`), verdict functions and the `Validate` loop |
| `ValidatorProperties` | `validator_properties.dfy` | key, registry, exemption and decision properties; scenarios |
| `Catalog` | `catalog.dfy` | discovery datatypes, the catalog function and the `BuildCatalog` loops |
| `CatalogProperties` | `catalog_properties.dfy` | membership, order, and the group/version split |

Both core files work by mutating state step by step: the registry map, the
informer slice, and the loops with early returns. So `WhiteListInit`,
`Validate`, `BuildCatalog`, `AppendResources` and `CheckListable` are
methods with loops. Each method is proved equal to a specification
function: `Registry`, `Decide`, `CatalogOf`, `EntriesOf` and `Listable`.
The properties are proved about those functions.

Behaviour of the code worth knowing:

- **NotFound is denied.** `validator.go:54-57` returns `false` with the
  message "The request is to delete a non-existing namespace"
  (`NotFoundIsDenied`).
- **A rule with an empty name is not a wildcard.** Its key ends in `/`, so
  it matches no object whose name is non-empty and does not end in `/`.
  Kubernetes object names never contain `/`, so such a rule matches no
  real object (`EmptyNameRuleMissesNamedObject`,
  `NamelessRulesExemptNothing`).
- **A rule without a version does not match.** A rule for the root CA
  ConfigMap that leaves the version empty is stored under an empty version
  segment. So the ConfigMap with apiVersion `v1` is *not* exempt and the
  deletion is denied (`RootCaRuleWithoutVersionDenied`). The same rule with
  version `V1` exempts it (`RootCaWhitelisted`).
- **Lookup errors other than NotFound are ignored.** The scan proceeds as
  for a found namespace (`OtherLookupErrorIgnored`).
- **A discovery failure empties the catalog.** `clientInit` returns the
  error before any entry is added (`BuildCatalog`). `Server`
  (`pkg/server/server.go:38-40`) only logs that error and keeps the client,
  so every later `Validate` scans no kinds. It then allows any namespace
  whose lookup does not report NotFound (`EmptyNamespaceAllowed` with no
  listings, `OtherLookupErrorIgnored`). The model's
  boundary is the empty catalog; `Server` itself is outside the model.

## Model

| member | source | states |
|---|---|---|
| `GoStrings.IndexOfSlash` | pkg/server/server.go:175-179 | the position of the first `/`: no `/` before it, a `/` at it, and it equals the length iff there is none |
| `GoStrings.Split` | pkg/server/server.go:175-179 | `strings.Split(s, "/")` yields at least one piece, no piece holds `/`, and joining the pieces with `/` gives `s` back |
| `GoStrings.SplitJoin` | pkg/server/server.go:175-179 | splitting undoes joining when no piece holds `/` (round trip) |
| `GoStrings.SplitAppend` | pkg/server/server.go:175-179 | splitting `x + "/" + y` gives the pieces of `x` followed by those of `y` |
| `GoStrings.SplitInTwo` | pkg/server/server.go:175 | the split has exactly two pieces iff the text holds exactly one `/`, and then they are the texts before and after it |
| `GoStrings.SplitFirstPiece` | pkg/server/server.go:179 | the first piece is the text before the first `/` |
| `GoStrings.Lower` | pkg/validator/validator.go:39-41 | definition of `strings.ToLower` (ASCII); properties in `LowerIdempotent`, `LowerKeepsSlashes`, `LowerConcat` |
| `GoStrings.LowerIdempotent` | pkg/validator/validator.go:39-41 | lower-casing twice equals lower-casing once |
| `GoStrings.LowerKeepsSlashes` | pkg/validator/validator.go:39-41 | lower-casing neither adds nor removes a `/` at any position |
| `GoStrings.LowerConcat` | pkg/validator/validator.go:92 | lower-casing a concatenation lower-cases each part |
| `Validator.BuiltinWhitelist` | pkg/validator/validator.go:20 | definition: the built-in exemption `{"event": true}`; properties in `EventsAlwaysExempt`, `ExemptIff` |
| `Validator.Defaulted` | pkg/validator/validator.go:35-37 | definition: an empty rule namespace takes the evaluated namespace; properties in `RuleKeyNamespace` |
| `Validator.StoredKey` | pkg/validator/validator.go:38-42 | definition of the stored key; properties in `RuleKeySegments`, `RuleKeyIsLowerCase`, `RuleKeyCaseInsensitive` |
| `Validator.RuleKey` | pkg/validator/validator.go:35-42 | definition: the key after defaulting; properties in `RuleKeyNamespace`, `RuleKeySegments`, `GrouplessRuleMatchIff`, `GroupedRuleMatchIff` |
| `Validator.Rules` | pkg/validator/validator.go:24-32 | definition: a failed read or parse leaves no rules; properties in `WhiteListInit`, `OnlyEventsAllowedWithoutDocument` |
| `Validator.Registry` | pkg/validator/validator.go:33-44 | definition of the `whitelistMemory` map the loop builds; properties in `WhiteListInit`, `RegistrySnoc`, `RegistryLookup`, `RepeatedKeyCollapses`, `RegistrySize` |
| `Validator.Whitelisted` | pkg/validator/validator.go:92-95 | definition of a Go `map[string]bool` lookup, an absent key reading as false; properties in `RegistryLookup`, `ExemptIff` |
| `Validator.RegistrySnoc` | pkg/validator/validator.go:34-44 | handling one more rule adds exactly that rule's key, mapped to true |
| `Validator.WhiteListInit` | pkg/validator/validator.go:23-47 | the registry holds a key iff some rule of the parsed document, with its namespace defaulted, is stored under it; every value is true; an unreadable or unparsable document gives the empty registry |
| `Validator.ObjectKey` | pkg/validator/validator.go:92 | definition of the lookup key; properties in `ObjectKeySegments`, `ObjectKeySplit` |
| `Validator.Exempt` | pkg/validator/validator.go:92-97 | definition of the two `continue` branches; properties in `ExemptIff`, `ExemptCaseInsensitive`, `EventsAlwaysExempt` |
| `Validator.Readable` | pkg/validator/validator.go:70-86 | definition: name, kind and apiVersion can all be read, else `deny` is set; properties in `UnreadableDenies`, `ResourceVerdictNone` |
| `Validator.Describe` | pkg/validator/validator.go:100 | definition of `apiversion+"/"+kind+"/"+name` in the object's own case; properties in `FirstBlockerIsNamed`, `LegacyDeploymentDenied` |
| `Validator.ResourceVerdict` | pkg/validator/validator.go:70-102 | definition of one object's outcome; properties in `ResourceVerdictNone` |
| `Validator.ResourcesVerdict` | pkg/validator/validator.go:69-103 | definition of the object loop; properties in `ResourcesPassIff`, `FirstResourceDenialWins` |
| `Validator.KindVerdict` | pkg/validator/validator.go:61-103 | definition of one kind's outcome; properties in `ScanPassesIff`, `FirstKindDenialWins` |
| `Validator.ScanVerdict` | pkg/validator/validator.go:60-104 | definition of the informer loop; properties in `ScanPassesIff`, `FirstKindDenialWins`, `DenialHasSource` |
| `Validator.Decide` | pkg/validator/validator.go:49-108 | definition of `Validate`'s result; properties in `DecideAllowsIff`, `NotFoundIsDenied`, `OtherLookupErrorIgnored`, `FirstBlockerIsNamed` |
| `Validator.Validate` | pkg/validator/validator.go:49-108 | the verdict equals `Decide`: NotFound is denied; otherwise the first listing error, unreadable object or non-exempt object, in catalog and listing order, decides the denial; else allowed |
| `ValidatorProperties.RuleKeyNamespace` | pkg/validator/validator.go:35-37 | a key starts with the rule's lower-cased namespace, or the evaluated one when the rule leaves it empty; a rule naming a namespace has the same key whatever namespace is evaluated |
| `ValidatorProperties.RuleKeySegments` | pkg/validator/validator.go:38-42 | splitting a rule's key on `/` gives back its lower-cased segments: four without a group, five with one |
| `ValidatorProperties.RuleKeyIsLowerCase` | pkg/validator/validator.go:39-41 | every stored key is lower-case |
| `ValidatorProperties.RuleKeyCaseInsensitive` | pkg/validator/validator.go:38-42 | rules differing only in letter case share one key |
| `ValidatorProperties.RegistryLookup` | pkg/validator/validator.go:33-44 | a key is whitelisted iff some rule is stored under it |
| `ValidatorProperties.RepeatedKeyCollapses` | pkg/validator/validator.go:39-41 | a rule repeating an earlier rule's key leaves the registry unchanged |
| `ValidatorProperties.RegistrySize` | pkg/validator/validator.go:33-44 | the registry has at most as many entries as the document has rules |
| `ValidatorProperties.ExemptIff` | pkg/validator/validator.go:92-97 | a readable object is exempt iff some rule is stored under its lower-cased `namespace/apiVersion/kind/name` key or its lower-cased kind is `event` |
| `ValidatorProperties.ExemptCaseInsensitive` | pkg/validator/validator.go:92-95 | objects and namespaces differing only in case are exempt alike |
| `ValidatorProperties.EventsAlwaysExempt` | pkg/validator/validator.go:20 | an object of kind `event`, in any case, passes whatever the registry holds |
| `ValidatorProperties.RuleMatchesObject` | pkg/validator/validator.go:38-42 | a rule whose namespace, kind and name agree up to case with the object, and whose version (or `group/version`) agrees with the object's apiVersion, has the object's key |
| `ValidatorProperties.ObjectKeySegments` | pkg/validator/validator.go:92 | splitting an object's key on `/` gives back its four lower-cased segments |
| `ValidatorProperties.GrouplessRuleMatchIff` | pkg/validator/validator.go:39 | for a rule without a group, the keys agree iff namespace, version, kind and name agree up to case (both directions) |
| `ValidatorProperties.GroupedKeyMatchFields` | pkg/validator/validator.go:41 | a rule with a group sharing an object's key agrees with it on namespace, kind and name up to case, and the object's lower-cased apiVersion is the rule's lower-cased `group/version` |
| `ValidatorProperties.GroupedRuleMatchIff` | pkg/validator/validator.go:41 | for a rule with a group, the keys agree iff namespace, kind and name agree up to case and the apiVersion is `group/version` up to case (both directions) |
| `ValidatorProperties.ObjectKeySplit` | pkg/validator/validator.go:92 | splitting an object's key gives its namespace, the pieces of its apiVersion, then kind and name, all lower-cased |
| `ValidatorProperties.MatchingRuleExempts` | pkg/validator/validator.go:92-94 | a rule matching an object makes the object pass |
| `ValidatorProperties.EmptyNameKeyEndsInSlash` | pkg/validator/validator.go:39-41 | a rule with an empty name is stored under a key ending in `/` |
| `ValidatorProperties.EmptyNameRuleMissesNamedObject` | pkg/validator/validator.go:39-41 | such a rule matches no object whose name is non-empty and does not end in `/` |
| `ValidatorProperties.NamelessRulesExemptNothing` | pkg/validator/validator.go:92-101 | a document of nameless rules exempts no named, non-event object |
| `ValidatorProperties.SeparatorCollision` | pkg/validator/validator.go:39-41 | a group-less rule whose namespace is `namespace/group` gets the key of the `group` rule for `namespace`, and exempts the object of apiVersion `group/version` there |
| `ValidatorProperties.ResourceVerdictNone` | pkg/validator/validator.go:69-102 | one object raises no denial iff it is readable and exempt |
| `ValidatorProperties.ResourcesPassIff` | pkg/validator/validator.go:69-103 | one kind's objects raise no denial iff each is readable and exempt |
| `ValidatorProperties.ScanPassesIff` | pkg/validator/validator.go:60-104 | the scan raises no denial iff every kind was listed and every object passes |
| `ValidatorProperties.DecideAllowsIff` | pkg/validator/validator.go:49-108 | allowed iff the lookup did not report NotFound and every kind was listed with every object passing |
| `ValidatorProperties.NotFoundIsDenied` | pkg/validator/validator.go:52-58 | a NotFound namespace is denied with the non-existing-namespace reason |
| `ValidatorProperties.OtherLookupErrorIgnored` | pkg/validator/validator.go:53-59 | any other lookup error gives the same verdict as a found namespace |
| `ValidatorProperties.EmptyNamespaceAllowed` | pkg/validator/validator.go:60-106 | a found namespace with only empty listings is allowed |
| `ValidatorProperties.ListErrorDenies` | pkg/validator/validator.go:62-67 | a listing error for any kind denies |
| `ValidatorProperties.UnreadableDenies` | pkg/validator/validator.go:70-90 | an object with unreadable name, kind or apiVersion denies |
| `ValidatorProperties.BlockingObjectDenies` | pkg/validator/validator.go:92-102 | a readable object that is not exempt denies |
| `ValidatorProperties.FirstResourceDenialWins` | pkg/validator/validator.go:69-103 | within a kind, the first object raising a denial after only passing ones decides the kind's denial |
| `ValidatorProperties.FirstKindDenialWins` | pkg/validator/validator.go:60-104 | across kinds, the first kind raising a denial after only passing kinds decides the verdict |
| `ValidatorProperties.DenialHasSource` | pkg/validator/validator.go:60-104 | every denial of the scan comes from a kind all of whose predecessors passed |
| `ValidatorProperties.FirstBlockerIsNamed` | pkg/validator/validator.go:98-101 | the first non-exempt object is reported as `apiVersion/kind/name` in its own case, with the namespace |
| `ValidatorProperties.FirstListErrorIsReported` | pkg/validator/validator.go:63-66 | the first failing listing, after only passing kinds, gives the listing-failure reason |
| `ValidatorProperties.OnlyEventsAllowedWithoutDocument` | pkg/validator/validator.go:24-32 | with an unreadable document, a namespace holding only an Event is allowed |
| `ValidatorProperties.RootCaWhitelisted` | pkg/validator/validator.go:35-39 | a rule with empty namespace, version `V1`, kind `ConfigMap` and name `kube-root-ca.crt` exempts that ConfigMap in `team-a` |
| `ValidatorProperties.VersionlessRuleMissesRootCa` | pkg/validator/validator.go:39 | the same rule without a version does not exempt the `v1` ConfigMap |
| `ValidatorProperties.RootCaRuleWithoutVersionDenied` | pkg/validator/validator.go:92-101 | so that deletion is denied, naming `v1/ConfigMap/kube-root-ca.crt` |
| `ValidatorProperties.LegacyDeploymentDenied` | pkg/validator/validator.go:98-101 | with no rules, an `apps/v1` Deployment is denied and named in the reason |
| `Catalog.SplitGroupVersion` | pkg/server/server.go:173-181 | definition of the group/version split; properties in `SplitGroupVersionSpec`, `GroupedVersionSplits`, `CoreVersionSplits`, `ExtraSeparatorsDropGroup` |
| `Catalog.Listable` | pkg/server/server.go:185-193 | definition of the listable test; its loop is `CheckListable` |
| `Catalog.EntriesOf` | pkg/server/server.go:183-206 | definition of one list's entries; properties in `EntriesOfMembership`, `EntriesAppend` |
| `Catalog.ListEntries` | pkg/server/server.go:169-206 | definition of one list's contribution; properties in `ListEntriesMembership`, `EmptyListContributesNothing` |
| `Catalog.CatalogOf` | pkg/server/server.go:169-207 | definition of the catalog; properties in `CatalogMembership`, `CatalogAppend`, `NothingListableEmptyCatalog` |
| `Catalog.SplitGroupVersionSpec` | pkg/server/server.go:173-181 | with exactly one `/`, group and version are the texts around it; otherwise the group is empty and the version is the text before the first `/` |
| `Catalog.CheckListable` | pkg/server/server.go:185-190 | the flag is set iff the resource is namespaced and one of its verbs lower-cases to `list` |
| `Catalog.AppendResources` | pkg/server/server.go:183-206 | the entries added are those of the listable resources, in order, as (group, version, plural name); a failed cache sync is ignored |
| `Catalog.BuildCatalog` | pkg/server/server.go:165-207 | a discovery failure returns an error with no entries; otherwise the catalog is `CatalogOf` the lists: empty lists skipped, every listable resource appended in discovery order |
| `CatalogProperties.EntriesOfMembership` | pkg/server/server.go:183-206 | an entry of one list comes from a listable resource, and every listable resource gives one (both directions) |
| `CatalogProperties.ListEntriesMembership` | pkg/server/server.go:169-206 | a list contributes exactly the entries of its listable resources, under its split group and version |
| `CatalogProperties.FromSomeListSnoc` | pkg/server/server.go:169 | a list giving the triple lies before the last list or is the last one |
| `CatalogProperties.CatalogMembership` | pkg/server/server.go:169-207 | a triple is catalogued iff some list holds a listable resource giving it, with the plural name rather than the kind |
| `CatalogProperties.CatalogAppend` | pkg/server/server.go:169 | the catalog of consecutive lists is the first part's catalog followed by the second's (discovery order) |
| `CatalogProperties.EntriesAppend` | pkg/server/server.go:183 | within a list, entries follow resource order |
| `CatalogProperties.EmptyListContributesNothing` | pkg/server/server.go:170-172 | a list without resources contributes nothing wherever it stands |
| `CatalogProperties.NothingListableEmptyCatalog` | pkg/server/server.go:191-193 | with no listable resource anywhere, the catalog is empty |
| `CatalogProperties.GroupedVersionSplits` | pkg/server/server.go:175-177 | `group/version` splits into that group and version |
| `CatalogProperties.CoreVersionSplits` | pkg/server/server.go:178-181 | a bare version gives an empty group and the whole text as version |
| `CatalogProperties.ExtraSeparatorsDropGroup` | pkg/server/server.go:178-181 | text with two or more `/` gives an empty group and the text before the first `/` |

## Left out

- File and JSON I/O: reading `/etc/admission-webhook/whitelist/whitelist.json`
  and `json.Unmarshal` are represented by the `WhiteListFile` outcome:
  `ReadFailed`, `ParseFailed`, or `Parsed` with the rules.
- Partial JSON decoding: if `json.Unmarshal` fails partway, it may have
  filled some rules already. The model treats every parse failure as "no
  rules".
- The Kubernetes API: the namespace lookup is the `GetOutcome` parameter,
  the listers' results are the `ListResult` sequence, and discovery is the
  `Discovery` parameter.
- Object accessor failures: these are the `None` fields of `Resource`.
- Informers: starting them, their goroutines, `WaitForCacheSync` and the
  stop channel. The sync result is a parameter that `AppendResources`
  reads and ignores, as the code only logs a failed sync. Two consequences
  of `pkg/server/server.go:145,200-201` are not modelled.
  `WaitForCacheSync` returns false only once `stopper` is closed, and only
  the deferred `close(stopper)` closes it. So the "failed to sync" branch
  is not reached inside the loop, and an informer that never syncs blocks
  `clientInit`. The same deferred close stops every informer when
  `clientInit` returns, so the listings `Validate` reads are a snapshot
  from start-up. The unconstrained `cacheSynced` and `lists` inputs cover
  both outcomes.
- Logging (`klog`): not modelled; it changes no result.
- Validator.Reason: carries the fields the denial message reports, not the
  formatted text. `%q` quoting and the accessor error appended to the
  metadata message are not modelled.
- GoStrings.Lower: lower-cases ASCII letters only; Go's Unicode case
  mapping is not modelled.
- `clientInit` steps before discovery (in-cluster config, clientset and
  dynamic client construction and their errors) are not modelled.
  `Server`, the TLS/HTTP set-up, the `validateHandler` request decoding and
  response writing, and `cmd/root.go` are outside this model.
- The `KubernetesClient` record is not modelled as an entity: its informer
  slice is the catalog that `BuildCatalog` returns, consumed by `Validate`
  as one listing per entry.
