# Graphik Terraform provider: collection reconciliation

This project models the reconciliation logic of the Graphik Terraform
provider. The provider declares four kinds of policy objects against a
Graphik server: indexes, triggers, constraints and authorizers. Each kind is
one collection of the server's schema. Every resource operation fetches the
schema, works on the fetched slice of its own kind, and, when it changes
something, writes that whole collection back.

The source writes the same logic four times, once per kind. The model states
it once:

- `reconcile.dfy`, module `Reconcile`, is generic over the payload type. An
  `Entry<P>` is a name plus payload. A fetched slice is an
  `array<Option<Entry<P>>>` in which `None` is a nil pointer, and
  `NameOf(None) == ""` matches the nil-safe protobuf getter. The module holds:
  - the in-place scans: `Upsert` for Create and Update, `OverwriteMatches`
    for the Delete scan, `RemoveAt` for `removeX`, `Contains` for Exists and
    `FindLast` for Read;
  - the specification functions those scans are proved against: `Upserted`,
    `Deleted`, `LastIndexOf` and `LastMatch`;
  - lemmas about those functions.
- `provider.dfy`, module `Provider`, defines:
  - the four field sets (`Payload`);
  - the remote schema, as a class with one collection field per kind;
  - the Create, Update, Read, Delete and Exists operations. Each one takes
    the kind it acts on.

  Whether the schema fetch and the write-back succeed is passed in as
  `fetchOk` and `writeOk`. The remote schema also records whether it carries
  an Authorizers message at all. The authorizer Create and Update need that
  message, and panic without it.

Three things in the code are easy to misread:

- Upsert overwrites every slot with the declared name, not just the first
  one, because its loop has no `break`.
- Read keeps the fields of the last match, not the first.
- Delete writes back a slice of the original length that ends in nil. It
  does not write back a shorter slice (see Findings).

## Model

| member | source | states |
|---|---|---|
| `Reconcile.Upsert` | main.go:94-118 | The Create/Update scan. Every slot with the declared name is overwritten in place by the whole declared entry, and every other slot stays as it was. The slice handed to the write-back is `Upserted`: the overwritten slice, plus the declared entry appended when nothing matched. The same scan appears at 162-186, 295-321, 368-394, 498-522 and 566-590. The authorizer copies at 693-717 and 761-784 scan the same way but append through the fetched message; see `Provider.Create`. |
| `Reconcile.UpsertedShape` | main.go:96-118 | After an upsert: if the name was present, the length is unchanged. If it was absent, the length grows by exactly one and the new last slot is the declared entry. Each matching slot becomes the declared entry, and each other slot keeps its value and its position. |
| `Reconcile.UpsertedMatchesAreDesired` | main.go:96-118 | After an upsert the declared name is present, and every slot with that name holds exactly the declared entry. |
| `Reconcile.UpsertThenRead` | main.go:96-153 | Round trip: a Read of the upserted slice, using the last-match rule, finds exactly the declared entry. |
| `Reconcile.UpsertSupersedes` | main.go:96-118 | Two upserts with the same name give the same result as the second one alone. No field of the first entry survives, so the replacement is whole and fields are not merged. |
| `Reconcile.UpsertIdempotent` | main.go:96-118 | Running the upsert again with the same entry gives the same slice. |
| `Reconcile.UpsertKeepsNamesDistinct` | main.go:96-118 | If the entries' names were distinct and the declared name is not empty, they stay distinct, and exactly one slot has the declared name. An empty name is excluded because nil slots answer to "", and the provider schema rejects empty names. |
| `Reconcile.LastIndexOf` | main.go:201-213 | The `index` left by the delete scan. It is -1 exactly when no slot has the name. Otherwise it is a matching position with no later match, because every later match overwrites it. |
| `Reconcile.OverwriteMatches` | main.go:200-213 | The Delete scan. It returns `LastIndexOf` of the fetched slice and overwrites every matching slot in place with the declared entry. The same code appears at 408-422, 604-617 and 798-811. |
| `Reconcile.RemoveAt` | main.go:891-895 | `removeX(i, values)`, which needs `0 <= i < len`. The old last element goes to slot `i`, the last slot becomes nil, and every other slot is unchanged. The caller's length is unchanged, so when `i` is the last position that slot simply becomes nil. The same code appears at 897-913. |
| `Reconcile.DeleteAbsent` | main.go:201-220 | If no slot has the declared name, the scan changes nothing and the delete result is the fetched slice. |
| `Reconcile.DeleteKeepsLength` | main.go:214-215 | As written, a delete that finds the name writes back a slice of the original length. Its last slot is nil, and the removed position holds the old last slot. |
| `Reconcile.DeleteFirstOfTwo` | main.go:891-895 | Concrete case: deleting `a` from `[a, b]` writes back `[b, nil]`. The intended swap-delete would give `[b]`. |
| `Reconcile.DeletedIsSwapRemovedThenNil` | main.go:201-215 | When the name occurs at most once, the as-written delete equals the intended swap-delete followed by one nil slot. |
| `Reconcile.DeletedPermutes` | main.go:201-215 | When the name occurs at most once, the written-back slice is a permutation of the fetched one, with the matched entry replaced by one nil. |
| `Reconcile.DeletedDropsName` | main.go:201-215 | If names are distinct and the name is not empty, no slot of the written-back slice still has the deleted name. |
| `Reconcile.SwapRemoved` | main.go:891-895 | The intended swap-delete. Its result is one shorter and is the original multiset minus one copy of the removed slot. |
| `Reconcile.SwapRemovedDropsName` | main.go:891-895 | If names are distinct and the name is not empty, the intended swap-delete leaves no slot with that name and keeps names distinct. |
| `Reconcile.Contains` | main.go:231-236 | The Exists scan. Its flag is true iff some slot's name equals the id. |
| `Reconcile.FindLast` | main.go:133-151 | The Read scan. It finds nothing iff no slot has the id. Otherwise it returns the last matching slot, since every match re-sets the fields. |
| `Provider.FieldsOf` | main.go:133-150 | The fields a Read copies out of a slot. A non-nil slot gives its own entry. A nil slot gives the zero values of the nil-safe getters, with name "". |
| `Provider.Create` | main.go:86-123 | If the fetch fails, Create returns its error and nothing is set or written. Otherwise the id is set to the declared name and exactly `Upserted(collection, declared)` is written back. Only the kind's own collection changes, and only when the write-back succeeds. A failed write-back is returned as an error. The same code appears at 287-326 and 490-527. The authorizer copy at 685-722 differs: when the fetched schema has no Authorizers message, it sets the id and then panics on the append at line 710, writing nothing back (`Panicked`). |
| `Provider.Update` | main.go:154-191 | The same contract as Create, including the authorizer panic. The same code appears at 360-399 and 558-595. The authorizer copy at 753-789 panics at line 777 on the same input, and it sets the id after the scan (line 775) instead of before it. |
| `Provider.Delete` | main.go:192-221 | If the fetch fails, Delete returns its error. If no slot has the declared name, no write-back is issued and the collection is unchanged. Otherwise exactly `Deleted(collection, declared)` is written back. Only the kind's own collection changes. The same code appears at 400-430, 596-625 and 790-819. |
| `Provider.Exists` | main.go:222-238 | The answer is true iff an entry of the kind's collection is named `id`. The only error is a failed fetch. The same code appears at 431-447, 626-642 and 820-836. |
| `Provider.Read` | main.go:124-153 | If the fetch fails, Read returns its error. If no slot has the id, no field is set and the state is the prior state. Otherwise the state holds the fields of the last matching slot, and its name is the id. The same code appears at 327-359, 528-557 and 723-752. |
| `Provider.CreateThenRead` | main.go:86-153 | A Create whose fetch and write-back succeed, followed by a Read of the declared name on the same remote schema, yields exactly the declared entry. Create fails only by the authorizer panic, exactly when the Authorizers message is absent. |
| `Provider.UpsertedOfKind` | main.go:94-118 | Upserting an entry of kind `k` leaves only entries of kind `k` in the collection. This is the typing that Go's per-kind slices give. |
| `Provider.DeletedOfKind` | main.go:200-215 | Deleting with an entry of kind `k` leaves only entries of kind `k` in the collection. |
| `Provider.RemoteSchema.Replace` | main.go:119 | The write-back RPC replaces the named kind's collection and leaves the other three unchanged. An authorizer write-back leaves an Authorizers message present. |

## Findings

| source | as written | input that shows it | evidently intended | confidence | as-written member | corrected member |
|---|---|---|---|---|---|---|
| main.go:891-895 | `values = values[:len(values)-1]` only rebinds the parameter. Delete therefore writes back the full-length slice, whose last element is now nil. | Collection `[a, b]`, delete `a`: the write-back carries `[b, nil]` | write back `[b]` | high; not executed | `Reconcile.DeleteKeepsLength` | `Reconcile.SwapRemoved` |

The same defect is at main.go:897-913. The Delete operation models the code
as written, so `Provider.Delete` writes back `Deleted`, which keeps the
length. `Reconcile.DeletedIsSwapRemovedThenNil` relates that slice to the
corrected `SwapRemoved`: when the name is held once, it is `SwapRemoved`
followed by one nil slot. The lemmas about the intended result
(`SwapRemoved`, `SwapRemovedDropsName`) carry over through it.

## Left out

- Provider configuration (main.go:845-886) is not modelled: the OIDC
  discovery HTTP GET, JSON decoding, the OAuth2 password grant and gRPC
  client construction are network I/O and library calls. Defects seen there
  but not modelled:
  - the token error at line 873 is ignored;
  - line 874 decodes the already consumed response body again;
  - `client_secret` is read at line 850 but is not declared in the
    provider schema;
  - the `.(string)` assertions at lines 867-868 panic when a key is missing.
- The RPCs `GetSchema` and `SetIndexes`/`SetTriggers`/`SetConstraints`/
  `SetAuthorizers` are represented as follows:
  - `RemoteSchema.Fetch` copies the kind's collection into a fresh array;
  - `RemoteSchema.Replace` replaces it;
  - their success is the `fetchOk`/`writeOk` parameters.

  The transport, its retry and what the server stores for a nil element of
  the slice are not modelled. Each operation fetches only its own kind's
  collection, not the whole aggregate.
- A failed write-back is assumed not to have been applied on the server.
  The RPC can fail on the client, through the 5-second deadline or after
  the transport's retries, and still have been applied.
- The authorizer Create and Update differ from the other kinds in ways the
  model does not distinguish:
  - they append the entry with `Name: data.Id()`, which equals the declared
    name because the id was set to it just before;
  - they write back the fetched Authorizers message itself rather than a
    new one built from the slice, and that message carries only the slice.
- The 5-second operation deadlines, `plugin.Serve`, `godotenv.Load` and the
  Terraform schema declarations are host-framework configuration. So is the
  `StringIsNotEmpty` validation, which appears only as the `name != ""`
  requirement of the uniqueness lemmas.
- `schema.ResourceData` is plain inputs and outputs: the declared entry in,
  the id out, and the prior and new field values of Read. The errors that
  `data.Set` could return are not modelled; every key Read sets is declared
  in the resource schema.
- Go's `append` may write into spare capacity of the fetched slice's backing
  array. No one reads that array afterwards, so the model returns the
  appended slice as a new sequence.
- The last-writer-wins race between concurrent fetch-then-write-back
  sequences needs the server and concurrency, which this sequential model
  does not have.
