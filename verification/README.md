# Postman collection runner — request lookup, placeholder substitution, request assembly

This project models the pure core of a Go helper that replays a Postman
collection: finding a request template by name in the collection tree
(`FindRequestByName`), substituting `{{key}}` placeholders from the variable
store (`ReplaceVariables`, built on `strings.ReplaceAll`), and the pure part of
`CreateRequest` that resolves a template's URL, body and headers.

- `wrappers.dfy` — `Option` (a Go nil pointer) and `Result` (a value or the returned error).
- `collection.dfy` — the collection tree (`Folder` for an item whose `Items` is non-nil,
  `Leaf` otherwise), the lookup, and its pre-order reference definition.
- `replace.dfy` — Go's `strings.ReplaceAll`, with `strings.Split` and `strings.Join`
  as a second description of it.
- `variables.dfy` — the variable store and `ReplaceVariables`.
- `builder.dfy` — the request record produced by `CreateRequest`.

Go visits a map in an unspecified order, and each `range` over the map may
choose a different one. `ReplaceVariables` therefore takes the store together
with `order`, one permutation of its keys, standing for the order the runtime
happened to choose. `CreateRequest` calls `ReplaceVariables` once for the URL,
once for the body and once per header. The model gives each call its own order:
`urlOrder`, `bodyOrder` and `headerOrders[i]` for header `i`. Every property
below holds for every choice of orders. The exceptions are
`Variables.IterationOrderIsObservable` and `Builder.UrlAndBodyMayUseDifferentOrders`,
which show that the orders can change the result.

Facts about the Go code that shape the model:
- The store holds plain strings (`map[string]string`).
- Substitution is not single-pass. A value inserted for one key is rescanned for
  the keys visited after it (see `Variables.IterationOrderIsObservable`).
- `CreateRequest` builds the request from the template alone: the method as
  written, the resolved URL, the resolved body (empty when the template has no
  body or an empty one), and one `Set` per declared header with its resolved
  value, in declaration order.

## Model

| member | source | states |
|---|---|---|
| `Collection.FindRequestByName` | postmanHelper.go:59-70 | a successful lookup returns a leaf (an item with nil `Items`) whose name equals the requested name exactly; a failed one returns the not-found error for that name |
| `Collection.FindIsFirstLeafInPreOrder` | postmanHelper.go:59-70 | the lookup returns exactly the first leaf with that name in the pre-order listing of leaves (children in stored order), and fails exactly when there is none |
| `Collection.NotFoundIffNoLeafNamed` | postmanHelper.go:59-70 | the lookup fails if and only if no leaf anywhere in the tree carries the name |
| `Collection.FoundIsFirstMatchingLeaf` | postmanHelper.go:60-68 | a found item is a leaf of the tree with that name, and every leaf visited before it in pre-order has a different name |
| `Collection.FolderIsSkippedOnMiss` | postmanHelper.go:61-64 | a folder's own name is never matched, and when the search inside a folder fails the walk continues with the folder's next sibling |
| `Replace.ReplaceAll` | postmanHelper.go:77 | a text in which a non-empty pattern does not occur is returned unchanged; with an empty pattern the result has length `Gap(|s|) + |rep|`, holds a copy of the replacement at every gap `Gap(i)`, `0 <= i <= |s|` (before each character and at the end), and holds character `i` of the text right after the `i`-th copy |
| `Replace.GapIsStride` | postmanHelper.go:77 | the `i`-th gap of the empty-pattern result starts at `i * (|rep| + 1)`: each earlier character contributes one copy of the replacement and itself |
| `Replace.SplitJoinRoundTrip` | postmanHelper.go:77 | cutting a text at every leftmost non-overlapping occurrence of a pattern and joining the pieces with the pattern gives the text back |
| `Replace.SplitPiecesAreFree` | postmanHelper.go:77 | no piece of that cut contains the pattern |
| `Replace.SplitCutsAtLeftmostOccurrence` | postmanHelper.go:77 | the first cut is at the leftmost occurrence: no occurrence of the pattern starts inside the first piece |
| `Replace.SplitAfterFirstCut` | postmanHelper.go:77 | a single piece means the pattern does not occur; otherwise the first piece ends where an occurrence starts, and the remaining pieces are the cut of the text after that occurrence. With `SplitCutsAtLeftmostOccurrence` this places every cut at the leftmost occurrence after the previous one |
| `Replace.ReplaceAllIsJoinOfSplit` | postmanHelper.go:77 | `strings.ReplaceAll` joins the same pieces with the replacement: the text between cuts is kept and each cut occurrence becomes the replacement |
| `Replace.ReplaceSplitsAtBoundary` | postmanHelper.go:77 | when no occurrence of the pattern crosses the boundary between two texts, replacing in their concatenation is replacing in each |
| `Variables.Placeholder` | postmanHelper.go:76 | the placeholder is the key between `{{` and `}}`, four characters longer than the key, and the key can be read back from between the braces |
| `Variables.ReplaceVariables` | postmanHelper.go:74-80 | a text holding no `{{k}}` for any stored key `k` is returned unchanged, whatever the map's iteration order |
| `Variables.SingleKeyHasOneOrder` | postmanHelper.go:75 | a map with one key has exactly one iteration order, that key alone |
| `Variables.SingleVariableReplacesEveryOccurrence` | postmanHelper.go:75-77 | with one stored key `k`, under any iteration order, the text is cut at every leftmost non-overlapping `{{k}}`, no piece still contains one, and the result is those pieces joined with the value |
| `Variables.ReplaceVariablesExample` | postmanHelper_test.go:32-37 | `{{var1}}` with `var1 -> value1` becomes `value1`, under every iteration order of that one-key map |
| `Variables.PlaceholdersDoNotOverlap` | postmanHelper.go:76 | placeholders of two different brace-free identifiers never share a character |
| `Variables.ReplaceKeepsOtherPlaceholder` | postmanHelper.go:76-77 | replacing `{{k}}` keeps an occurrence of `{{u}}`, `u` different from `k`, and rewrites the text on each side of it independently |
| `Variables.UnknownPlaceholderSurvives` | postmanHelper.go:74-80 | a placeholder whose identifier is not a stored key survives verbatim, and the text on either side is resolved as if it stood alone |
| `Variables.IterationOrderIsObservable` | postmanHelper.go:75-77 | for `a -> {{b}}`, `b -> x` and text `{{a}}`, the orders `[a, b]` and `[b, a]` are both iteration orders of the map and give `x` and `{{b}}` |
| `Builder.SetHeaders` | postmanHelper.go:96-99 | the header set holds exactly the declared keys; each key maps to the value of the last header declaring it, resolved under that header's own iteration order; other existing entries are untouched |
| `Builder.ResolveBody` | postmanHelper.go:87-91 | an absent body gives an empty body; a present, non-empty body is resolved; a present body without placeholders of stored keys is kept as written |
| `Builder.CreateRequest` | postmanHelper.go:84-101 | the method is kept; the URL is the raw URL resolved under its own order; the body is empty when absent or empty and otherwise the raw body resolved under its own order; headers are set with last-one-wins, each under its own order |
| `Builder.CreateRequestWithoutPlaceholdersKeepsTemplate` | postmanHelper.go:86-99 | a template with no placeholder of a stored key is sent as written: raw URL, raw body (empty when absent), raw value of the last header per key |
| `Builder.RepeatedHeaderLastWins` | postmanHelper.go:96-99 | of two headers with the same key, only the second's resolved value is sent |
| `Builder.UrlAndBodyMayUseDifferentOrders` | postmanHelper.go:86-90 | the URL and the body are resolved by separate calls, so the same text `{{a}}` can come out as `x` in the URL and `{{b}}` in the body |

## Left out

- `ParsePostmanCollection` (postmanHelper.go:41-55): file I/O and an external parser; the model receives an already-built tree.
- `SendRequest` (postmanHelper.go:105-123): the HTTP exchange, reading the body and `json.Unmarshal` are calls into code not visible here.
- `FindAndSendRequest` and `NewPostman`: glue with no logic beyond the modelled pieces.
- `http.NewRequest` and its error return: URL validation belongs to the Go library; `CreateRequest` therefore returns the request record without an error case.
- `http.Header.Set` key canonicalisation: headers are a plain map keyed by the declared key.
- The `%v` formatting of header values: header values are strings.
- Header fields other than key and value, such as the disabled flag: the code sets every declared header regardless, so they have no effect.
- A leaf whose `Request` or `URL` is nil, or a nil item in a list: the Go code dereferences these and panics; the model's types make them impossible.
- `GetDataFromResponse` and `ReplaceVariablesInScript`: the tests call them, but their implementation is not part of this model.
- Go strings are byte sequences; the model works on sequences of characters, and Go's empty-pattern rule for `strings.ReplaceAll` (insert at every UTF-8 boundary) is modelled as insertion between characters. No placeholder is empty, so this case is never reached from `ReplaceVariables`.
- Independence from the map's iteration order is not proved. It does not hold in general; `Variables.IterationOrderIsObservable` exhibits a counterexample.
- Variables.UnknownPlaceholderSurvives: stated only for identifiers and keys without `{` or `}`. With braces, one key's placeholder can overlap another's, for example key `a` inside `{{a}}}` when the unknown identifier is `a}`.
- Variables.PlaceholdersDoNotOverlap and Variables.ReplaceKeepsOtherPlaceholder: stated under the same brace-free restriction, for the same reason.
