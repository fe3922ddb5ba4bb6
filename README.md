# Template resource resolution and Prometheus manifest generation

This project is a Dafny model of two small pieces of the add-on controller.

- **Template resource references** (`templateresources.dfy`, module
  `TemplateResources`). A ClusterSummary can list TemplateResourceRefs. Each
  one points to an object in the management cluster.
  - If a reference leaves its namespace empty, the cluster's namespace is used.
  - The reference's name is a template, rendered against the cluster.
  - `collectTemplateResourceRefs` fetches every referenced object in list order.
    Found objects go into a map keyed by the reference's identifier.
  - A not-found object is skipped. Any other error aborts the whole call with
    no map.
  - The name renderer, the dynamic-client factory and the `Get` call are
    collaborators. They are passed in as the three functions of a
    `ManagementCluster`.
  - The loop is an imperative method. It is proved equal to the functional
    specification `Collected`. A ghost log of the issued `Get` requests is
    proved equal to `CollectedRequests`.
- **Prometheus manifest generator** (`prometheus.dfy`, module
  `PrometheusGenerator`). These are the text steps the generator applies to the
  Prometheus operator manifest before embedding it in Go source:
  - strip backticks;
  - move `namespace: default` to `namespace: monitoring`;
  - read the Deployment's name from its section of the manifest;
  - wrap the text in backticks.

  `getKindSection` is modelled as a loop method and proved equal to the
  specification function `KindSection`. Every `panic` is a `Failure` result.
- **Go library behaviour** (`gostrings.dfy`, module `GoStrings`). These are the
  library calls the generator depends on, written out:
  - `strings.Index`, `strings.Contains` and `strings.ReplaceAll`;
  - the line splitting of a `bufio.Scanner` (cut at `\n`, one trailing `\r`
    dropped, no empty last line after a final newline);
  - `fmt.Sscanf` with `%s` (leading spaces skipped; a newline or the end of
    input before the word is an error).

  `ReplaceAll` is proved equal to a second definition built from
  `strings.Split` and `strings.Join`.
- `wrappers.dfy` holds the `Result` and `Option` types.

A Go nil slice of references is `None`. An empty slice is `Some([])`. A nil
result map is `Success(None)`. The model works on immutable values, so the
per-iteration copy of a reference can never change the caller's list. That
holds in the model by construction.

## Model

| member | source | states |
|---|---|---|
| `TemplateResources.TemplateResourceNamespace` | controllers/templateresourcedef_utils.go:35-45 | a non-empty reference namespace is returned unchanged; an empty one yields the cluster namespace; the result is empty exactly when both are empty |
| `TemplateResources.Resolve` | controllers/templateresourcedef_utils.go:84-90 | the per-iteration copy keeps the kind, takes the defaulted namespace and the rendered name, and fails with the renderer's error exactly when rendering fails |
| `TemplateResources.CollectTemplateResourceRefs` | controllers/templateresourcedef_utils.go:73-110 | the loop returns `Collected` and issues exactly the Gets of `CollectedRequests`; nil references give a nil map, no error and no Get |
| `TemplateResources.AbortIsFinal` | controllers/templateresourcedef_utils.go:87-104 | once a prefix of the references has aborted, the result and the Gets issued no longer depend on the remaining references |
| `TemplateResources.CollectFailsAtFirstAbort` | controllers/templateresourcedef_utils.go:87-104 | the call fails exactly when some reference hits a rendering, client or non-not-found Get error, and it fails with the first such reference's error and no map |
| `TemplateResources.CollectKeys` | controllers/templateresourcedef_utils.go:97-107 | on success the keys are exactly the identifiers of references whose object was found |
| `TemplateResources.CollectLastWins` | controllers/templateresourcedef_utils.go:106 | on success the identifier of a found reference that no later found reference shares is bound to that reference's object, so the last found one in list order wins |
| `TemplateResources.NotFoundIsSkipped` | controllers/templateresourcedef_utils.go:98-102 | a not-found reference changes nothing: the outcome equals that of the list without it, so later references are still processed |
| `TemplateResources.RequestsAreResolved` | controllers/templateresourcedef_utils.go:84-98 | the k-th Get is for the k-th reference, with its defaulted namespace and rendered name; there are no more Gets than references, and on success exactly one per reference |
| `GoStrings.IndexSpec` | internal/generators/prometheus.go:119 | `Index` is -1 exactly when the pattern does not occur, and otherwise the leftmost position where it occurs |
| `GoStrings.ReplaceAllKeepsAbsent` | internal/generators/prometheus.go:125 | a character in neither the input nor the replacement does not appear in the result |
| `GoStrings.SplitJoin` | internal/generators/prometheus.go:125 | the pieces between occurrences, joined by the pattern, give back the input |
| `GoStrings.SplitLeftmost` | internal/generators/prometheus.go:125 | every piece but the last ends where the leftmost occurrence of the pattern starts, and the last piece holds no occurrence |
| `GoStrings.ReplaceAllIsJoinOfSplit` | internal/generators/prometheus.go:125 | ReplaceAll equals the pieces between leftmost non-overlapping occurrences joined by the replacement |
| `GoStrings.ReplaceAllDeletesChar` | internal/generators/prometheus.go:75 | replacing a one-character pattern by the empty string removes exactly that character and keeps all others in order |
| `GoStrings.LinesAreSplitPieces` | internal/generators/prometheus.go:149-152 | the lines are the pieces between newlines, with an empty last piece (left by a final newline or by empty text) dropped and one trailing carriage return removed from each |
| `GoStrings.LinesRoundTrip` | internal/generators/prometheus.go:149-152 | for text without carriage returns that is empty or ends in a newline, the lines, each followed by a newline, give back the text |
| `GoStrings.LinesRoundTripOpen` | internal/generators/prometheus.go:149-152 | for non-empty text without carriage returns whose last character is not a newline, the lines, each followed by a newline, give back the text plus one newline: the unterminated last line is yielded too |
| `GoStrings.ScanString` | internal/generators/prometheus.go:139-142 | succeeds exactly when blanks (not a newline) lead to a word, and then yields that word: non-empty, free of spaces, ending at a space or the end |
| `GoStrings.ScanFailures` | internal/generators/prometheus.go:139-142 | Sscanf fails with `EOF` exactly when the input is all blanks, and with `unexpected newline` exactly when a newline follows only blanks |
| `PrometheusGenerator.ChangeNamespace` | internal/generators/prometheus.go:116-127 | fails exactly when `namespace: default` does not occur; otherwise the result is the text between occurrences joined by `namespace: monitoring` |
| `PrometheusGenerator.ChangeNamespaceRewrites` | internal/generators/prometheus.go:124-126 | the input is the kept pieces joined by `namespace: default`, the output is the same pieces joined by `namespace: monitoring`, and the text after the last replaced occurrence holds no further one (`GoStrings.SplitLeftmost` gives the leftmost cut for every piece) |
| `PrometheusGenerator.KindSection` | internal/generators/prometheus.go:146-166 | the section is empty exactly when no line contains `kind: <kind>` |
| `PrometheusGenerator.KindSectionRange` | internal/generators/prometheus.go:151-165 | the section is the lines from the first one containing `kind: <kind>` through the first `---` line at or after it (or to the end), each followed by a newline |
| `PrometheusGenerator.SectionIsSliceOfLines` | internal/generators/prometheus.go:157-159 | the section is a run of whole lines `lines[x..y]`, each newline-terminated, and equally the slice of the lines' newline-terminated text between the offsets where lines `x` and `y` start |
| `PrometheusGenerator.KindSectionIsSlice` | internal/generators/prometheus.go:146-166 | for a manifest without carriage returns that ends in a newline, the section is a contiguous piece of the manifest text |
| `PrometheusGenerator.GetKindSection` | internal/generators/prometheus.go:146-166 | the scanning loop with its copy flag and early return computes `KindSection` of the scanner's lines |
| `PrometheusGenerator.GetDeploymentName` | internal/generators/prometheus.go:129-144 | fails when the Deployment section has no `name:` or no word follows it on its line; otherwise yields the first word after the first `name:`, non-empty and free of spaces |
| `PrometheusGenerator.StripBackticks` | internal/generators/prometheus.go:75 | the result is the input with every backtick removed, so it contains none |
| `PrometheusGenerator.Quote` | internal/generators/prometheus.go:80 | the literal is the text with one backtick before and one after |
| `PrometheusGenerator.GenerateInfo` | internal/generators/prometheus.go:74-101 | fails exactly when the backtick-free manifest never mentions `namespace: default` or the rewritten manifest yields no Deployment name; on success the literal is the backtick-free manifest, its pieces between default namespaces joined by `namespace: monitoring`, wrapped in backticks with no other backtick inside, the Deployment name is `GetDeploymentName` of the rewritten manifest, a non-empty word without spaces, the namespace is `monitoring`, and the exported name is passed through |
| `PrometheusGenerator.EmbeddedLiteralWellFormed` | internal/generators/prometheus.go:75-80 | the embedded literal begins and ends with a backtick and contains no other backtick |

## Left out

- `getTemplateResourceName` (controllers/templateresourcedef_utils.go:49-69) is a function of the model's inputs, `ManagementCluster.renderName`. Its behaviour is Go's text/template with the sprig functions and `missingkey=error`, and that is not modelled.
- `getManagementClusterConfig`, `utils.GetDynamicResourceInterface` and `dr.Get` are cluster configuration and network I/O. They are `ManagementCluster.dynamicClient` and `ManagementCluster.get`. The `context.Context` argument has no counterpart.
- A fetched object is an opaque value. The model has no pointers to unstructured objects and no aliasing.
- The collaborators are pure functions, so the model treats the management cluster as a snapshot: within one call, every reference to the same object gets the same answer. In Go the cluster may change between two Gets of one call. `TemplateResources.NotFoundIsSkipped` relies on the snapshot.
- `generatePrometheus` file handling is not modelled: `filepath.Abs`, reading the input, creating the output file and executing the Go template into it. `main`'s fixed paths are left out too. Only the `Info` record the template is rendered from is modelled.
- `GoStrings.Lines` does not model the 64 KiB token limit of `bufio.Scanner`. On a longer line the Scanner stops and records `bufio.ErrTooLong`, but `getKindSection` (internal/generators/prometheus.go:151-163) never reads `s.Err()`, so in Go the section is silently cut short there.
- `GoStrings.ReplaceAll` requires a non-empty pattern. Go's rule for an empty pattern (insert at every rune boundary) is not modelled. The only callers pass fixed non-empty patterns.
- Characters stand for Go's runes. The byte indexing of Go strings only differs for non-ASCII text, and all patterns here are ASCII.
- Error texts are kept only as strings. The Go error types (for example the wrapping added by `errors.Wrapf`) are not modelled.
- `PrometheusGenerator.ChangeNamespace`: the model does not prove that the result no longer contains `namespace: default`. The source does not promise this either.
- controllers/lua_instantiation.go is not part of this model. It wraps an embedded Lua interpreter, a cluster fetch, a global config-map lookup and JSON encoding.
- The deploy, stale-resource cleanup, hashing and Helm code that controllers/export_test.go and controllers/handlers_utils_test.go exercise is not part of this model. Its implementation is not among the files modelled here.
