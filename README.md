# Mesh membership for the Istio vetter utilities

This project models the helper package of the Istio vetter (`pkg/vetter/util/util.go`). The package decides which
Kubernetes namespaces, pods, services and endpoints belong to the service mesh. It reads the sidecar initializer's
configuration (the `istio-inject` config map in `istio-system`) and follows the injection conventions: the
`sidecar.istio.io/status` annotation and the `istio-proxy` container. It also classifies service port names by
protocol prefix, looks up container images by name, and turns the "initializer config map not found" error into
an INFO note.

Layout:

- `constants.dfy` (module `Constants`): the package's named constants.
- `errors.dfy` (module `Errors`): the error values (with the text each Go error prints), `Result` and `Option`.
- `kube.dfy` (module `Kube`): the fields of the Kubernetes records and of the vetter `Note` that the package reads.
- `seqs.dfy` (module `Seqs`): filtering a sequence, order-preserving subsequence, no repetition, substring search.
- `util.dfy` (module `Util`): the package itself.

The Go loops are methods with loop invariants, each proved against a specification function. These are
`ServicePortPrefixed`, `SidecarInjected`, `ImageFromContainers`, `ExistsInStringSlice`,
`DefaultExemptedNamespaces` and the four `List*InMesh` builders. Their specifications are `IstioPortName`,
`IsSidecarInjected`, `ImageOf`, `NamespacesInMesh`, `Gather` and the builders' `PodsInMesh`, `ServicesInMesh` and
`EndpointsInMesh`. Lemmas state what the source promises about those specifications. The Go map lookup in
`ExemptedNamespace`, the config-map read in `GetInitializerConfig` and the note construction are functions.

External collaborators are parameters:

- The namespace lister is the `Result` of its one `List` call.
- The config-map lister is a function from (namespace, name) to a `Result<ConfigMap>`.
- The pod, service and endpoints listers are functions from a namespace name to a `Result` of a sequence.
- The YAML decoder is a function `parse` from the config text to a `Result<InjectConfig>`.

The namespace filter is not a first-match policy. The exclude check and the include check run one after the
other (util.go:248-260), so a namespace must pass both. When both lists are configured, the include list still
restricts the namespaces the exclude list lets through. `InMesh` is that conjunction.

## Model

| member | source | states |
|---|---|---|
| `Util.PrefixTableIsPaired` | pkg/vetter/util/util.go:102-108 | the port-prefix table has even length and entry 2k+1 is entry 2k followed by "-", so the loop's i+1 index stays in bounds |
| `Util.ExemptedNamespace` | pkg/vetter/util/util.go:128-132 | true exactly for kube-system, kube-public and istio-system; any other name, missing from the table, gives false |
| `Util.ExemptedKeys` | pkg/vetter/util/util.go:110-113 | the exempted-namespace table has exactly three keys, the three exempted names |
| `Util.DefaultExemptedNamespaces` | pkg/vetter/util/util.go:115-126 | whatever order the map keys are visited in, the result has three entries, none repeated, and they are exactly the exempted names |
| `Util.GetInitializerConfig` | pkg/vetter/util/util.go:134-155 | succeeds iff the istio-inject config map in istio-system is fetched, has key "config" and that text decodes; otherwise the error is the lister's, the missing-key error, or the decoder's, in that order |
| `Util.IstioInitializerDisabledNote` | pkg/vetter/util/util.go:157-167 | a note is returned iff the error text contains `configmaps "istio-inject" not found` at some position; the note has the given type, level INFO, and summary equal to the fixed text + `"` + vetter id + `" vetter.` |
| `Util.DisabledSummaryNamesVetter` | pkg/vetter/util/util.go:163 | the summary starts with the fixed text and a quote, the vetter id can be read back from it, and two ids give the same summary only if they are equal |
| `Seqs.ContainsIff` | pkg/vetter/util/util.go:160 | the substring search succeeds exactly when the pattern occurs at some position of the text |
| `Util.MissingInitializerGivesNote` | pkg/vetter/util/util.go:137-142 | when the config-map lister reports the istio-inject map as not found, the namespace filter fails with that error, and its text gives the INFO note naming the vetter |
| `Util.ServicePortPrefixed` | pkg/vetter/util/util.go:169-180 | true iff the name equals one of http, http2, grpc, mongo, redis, tcp or starts with that name and "-" |
| `Util.PortNameExamples` | pkg/vetter/util/util.go:102-108 | "http", "http2", "http-foo" and "grpc-web" are recognised; "httpz", "udp" and "" are not |
| `Util.SidecarInjected` | pkg/vetter/util/util.go:182-196 | true iff the pod has the sidecar.istio.io/status annotation and some container named exactly istio-proxy |
| `Util.SidecarNeedsBoth` | pkg/vetter/util/util.go:185-195 | without the annotation, or without an istio-proxy container, a pod is not injected |
| `Util.SidecarExamples` | pkg/vetter/util/util.go:185-196 | with the annotation, containers app and istio-proxy give injected, and app alone does not |
| `Util.ImageOfFirstMatch` | pkg/vetter/util/util.go:198-207 | the lookup fails, with a container-not-found error naming the container, iff no container has the name; otherwise it returns the image of the first container that has it |
| `Util.ImageFromContainers` | pkg/vetter/util/util.go:198-207 | the linear search returns the first-match lookup result |
| `Util.Image` | pkg/vetter/util/util.go:209-213 | the lookup runs over the pod spec's regular containers |
| `Util.InitImage` | pkg/vetter/util/util.go:215-219 | the lookup runs over the pod spec's init containers |
| `Util.ExistsInStringSlice` | pkg/vetter/util/util.go:221-228 | true iff the string is an element of the list |
| `Util.ListNamespacesInMesh` | pkg/vetter/util/util.go:230-264 | returns the namespace lister's error, else the configuration error, else the listed namespaces that pass the membership rule, in listing order |
| `Util.NamespacesInMeshErrors` | pkg/vetter/util/util.go:235-243 | the filter fails exactly when listing namespaces or reading the configuration fails, with the lister's error first |
| `Util.NamespacesInMeshKept` | pkg/vetter/util/util.go:244-262 | the result is an order-preserving subsequence of the listing, without repeats when the listing has none, and a namespace is kept iff it is not exempted, not on a non-empty exclude list, and admitted by an empty include list, by its "" entry, or by name |
| `Util.ExcludeOverridesInclude` | pkg/vetter/util/util.go:248-253 | a namespace on the exclude list is never returned, even when the include list names it |
| `Util.NoListsKeepAllButExempted` | pkg/vetter/util/util.go:244-262 | with no exclude list and an empty include list (or one that holds ""), the result is the listing minus the exempted namespaces |
| `Util.ListPodsInMesh` | pkg/vetter/util/util.go:266-288 | returns the namespace filter's error, else the first failing pod listing's error, else the concatenation in mesh-namespace order of each namespace's injected pods |
| `Util.ListServicesInMesh` | pkg/vetter/util/util.go:290-311 | the same, keeping every service not named kubernetes |
| `Util.ListEndpointsInMesh` | pkg/vetter/util/util.go:313-334 | the same, keeping every endpoints object not named kubernetes |
| `Util.GatherErrorStays` | pkg/vetter/util/util.go:276-280 | once a namespace's listing has failed, later namespaces do not change the result |
| `Util.GatherFirstError` | pkg/vetter/util/util.go:275-280 | gathering fails iff some namespace's listing fails, and then with the error of the first failing namespace |
| `Util.GatherMembers` | pkg/vetter/util/util.go:275-286 | an object is gathered exactly when it was listed for one of the namespaces and passes the builder's predicate |
| `Util.PodsInMeshProperties` | pkg/vetter/util/util.go:269-288 | the namespace error is passed on; the result fails iff some mesh namespace's pod listing fails; every pod returned is sidecar-injected and was listed in a mesh namespace; every injected pod listed there is returned; no pod is returned twice when the namespace listing repeats nothing and each pod listing repeats nothing and holds only pods of its namespace |
| `Util.ServicesInMeshProperties` | pkg/vetter/util/util.go:292-311 | the namespace error is passed on; the result fails iff some mesh namespace's listing fails; no service returned is named kubernetes; each was listed in a mesh namespace; every other listed service is returned; no service is returned twice under the same conditions on the listings |
| `Util.EndpointsInMeshProperties` | pkg/vetter/util/util.go:315-334 | the same for endpoints objects, including that none is returned twice |
| `Util.GatherDistinct` | pkg/vetter/util/util.go:275-286 | over namespaces with distinct names, from listings that repeat nothing and list only objects of their own namespace, the gathered objects are all distinct |
| `Seqs.DistinctAppend` | pkg/vetter/util/util.go:261 | appending two repeat-free lists with no common element gives a repeat-free list |
| `Seqs.FilterIsSubsequence` | pkg/vetter/util/util.go:244-261 | appending the kept elements in a loop yields an order-preserving subsequence of the input |
| `Seqs.FilterKeeps` | pkg/vetter/util/util.go:304-308 | filtering keeps exactly the elements of the input that satisfy the predicate, and never lengthens the list |
| `Seqs.FilterDistinct` | pkg/vetter/util/util.go:244-261 | filtering a list without repeats yields a list without repeats |

## Left out

- `ComputeID` (util.go:336-340): an MD5 digest through the `structhash` library. Beyond being a deterministic function, it has no property the model could state.
- Logging through `glog`: a side channel only.
- The Kubernetes listers, `labels.Everything()` and YAML decoding: these are external libraries, modelled as parameters. The model does not capture what those functions return.
- `Params` and the `Mesh`/image/flag fields of the initializer configuration: nothing in the package reads them. `InjectConfig` keeps the policy, the two namespace lists and the initializer name.
- Constants that nothing in the package reads, such as the mixer and pilot names, the mesh config map, the auth policy, the app label and the UDP protocol name.
- Go returns slices of pointers to shared records. The model returns sequences of record values, so aliasing of the returned records with the lister's cache is not modelled.
- A nil slice and an empty slice are the same empty sequence. The `!= nil && len > 0` tests at util.go:248 and 254 are both modelled as "non-empty".
- A nil pod would make `SidecarInjected` panic. Records here are never nil.
- `strings.Contains` and `strings.HasPrefix` are library calls. They are modelled by `Seqs.Contains` and the sequence prefix operator, over characters rather than bytes.
- `Kube.NoteLevel`: only INFO is produced by the package. The other levels are listed for completeness and are not taken from the note API, which is not part of this model.
- The logging before each returned error is left out. The error values are returned as the code returns them.
