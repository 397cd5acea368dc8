/**
  The four resource kinds of the Graphik Terraform provider (graphik_index,
  graphik_trigger, graphik_constraint, graphik_authorizer) and their
  Create, Update, Read, Delete and Exists operations.

  The remote schema is a class with one collection per kind. Each operation
  fetches its kind's collection into a fresh array, runs the reconciliation
  scan of module Reconcile on it, and, for the mutating ones, writes the
  resulting slice back as a whole. Whether the schema fetch and the write-back
  RPC succeed is given by the parameters `fetchOk` and `writeOk`.
*/
module Provider {
  import opened Reconcile

  datatype Kind = Index | Trigger | Constraint | Authorizer

  /** The fields of one entry besides its name, one variant per kind. */
  datatype Payload =
    | IndexFields(gtype: string, expression: string, docs: bool, connections: bool)
    | TriggerFields(gtype: string, expression: string, trigger: string, targetDocs: bool, targetConnections: bool)
    | ConstraintFields(gtype: string, expression: string, targetDocs: bool, targetConnections: bool)
    | AuthorizerFields(rpcMethod: string, expression: string, targetRequests: bool, targetResponses: bool)

  function KindOf(p: Payload): Kind
  {
    match p
    case IndexFields(_, _, _, _) => Index
    case TriggerFields(_, _, _, _, _) => Trigger
    case ConstraintFields(_, _, _, _) => Constraint
    case AuthorizerFields(_, _, _, _) => Authorizer
  }

  /** What the protobuf getters return on a nil message of kind `k`. */
  function Zero(k: Kind): (p: Payload)
    ensures KindOf(p) == k
  {
    match k
    case Index => IndexFields("", "", false, false)
    case Trigger => TriggerFields("", "", "", false, false)
    case Constraint => ConstraintFields("", "", false, false)
    case Authorizer => AuthorizerFields("", "", false, false)
  }

  /** The fields a Read copies out of one slot through the nil-safe getters. */
  function FieldsOf(k: Kind, slot: Slot<Payload>): (e: Entry<Payload>)
    ensures e.name == NameOf(slot)
    ensures slot.Some? ==> e == slot.value
  {
    match slot
    case None => Entry("", Zero(k))
    case Some(e) => e
  }

  /** Every non-nil entry of `s` is of kind `k` (what the Go slice types guarantee). */
  ghost predicate OfKind(s: seq<Slot<Payload>>, k: Kind)
  {
    forall i :: 0 <= i < |s| && s[i].Some? ==> KindOf(s[i].value.payload) == k
  }

  datatype RpcError = FetchFailed | WriteBackFailed

  /** How an operation ends: `Panicked` is a nil-pointer dereference in the operation itself. */
  datatype Outcome = Done | Failed(error: RpcError) | Panicked

  /** The remote schema aggregate: one collection per kind. */
  class RemoteSchema {
    var indexes: seq<Slot<Payload>>
    var triggers: seq<Slot<Payload>>
    var constraints: seq<Slot<Payload>>
    var authorizers: seq<Slot<Payload>>
    /**
      Whether a fetched schema carries an Authorizers message at all. Without
      one, `GetAuthorizers()` is nil and its collection reads as empty.
    */
    var authorizersPresent: bool

    ghost predicate Valid()
      reads this
    {
      && OfKind(indexes, Index)
      && OfKind(triggers, Trigger)
      && OfKind(constraints, Constraint)
      && OfKind(authorizers, Authorizer)
      && (!authorizersPresent ==> authorizers == [])
    }

    /**
      Whether an upsert of kind `k` can append to the fetched collection. The
      index, trigger and constraint closures append to a slice read through
      nil-safe getters; the authorizer closures append through the fetched
      Authorizers message itself, which must then exist.
    */
    predicate Appendable(k: Kind)
      reads this
    {
      k != Authorizer || authorizersPresent
    }

    function Collection(k: Kind): seq<Slot<Payload>>
      reads this
    {
      match k
      case Index => indexes
      case Trigger => triggers
      case Constraint => constraints
      case Authorizer => authorizers
    }

    constructor (indexes: seq<Slot<Payload>>, triggers: seq<Slot<Payload>>,
                 constraints: seq<Slot<Payload>>, authorizers: seq<Slot<Payload>>,
                 authorizersPresent: bool)
      requires OfKind(indexes, Index) && OfKind(triggers, Trigger)
      requires OfKind(constraints, Constraint) && OfKind(authorizers, Authorizer)
      requires !authorizersPresent ==> authorizers == []
      ensures Valid()
      ensures Collection(Index) == indexes && Collection(Trigger) == triggers
      ensures Collection(Constraint) == constraints && Collection(Authorizer) == authorizers
      ensures this.authorizersPresent == authorizersPresent
    {
      this.indexes := indexes;
      this.triggers := triggers;
      this.constraints := constraints;
      this.authorizers := authorizers;
      this.authorizersPresent := authorizersPresent;
    }

    /** The kind's collection of a freshly fetched schema, as a slice of its own. */
    method Fetch(k: Kind) returns (values: array<Slot<Payload>>)
      ensures fresh(values)
      ensures values[..] == Collection(k)
    {
      var s := Collection(k);
      values := new Slot<Payload>[|s|](i requires 0 <= i < |s| => s[i]);
    }

    /**
      The write-back RPC: replaces the kind's whole collection and no other.
      An authorizer write-back always sends an Authorizers message.
    */
    method Replace(k: Kind, s: seq<Slot<Payload>>)
      requires Valid()
      requires OfKind(s, k)
      modifies this
      ensures Valid()
      ensures Collection(k) == s
      ensures forall j :: j != k ==> Collection(j) == old(Collection(j))
      ensures authorizersPresent == (old(authorizersPresent) || k == Authorizer)
    {
      match k
      case Index => indexes := s;
      case Trigger => triggers := s;
      case Constraint => constraints := s;
      case Authorizer => authorizers, authorizersPresent := s, true;
    }
  }

  /** An upsert of an entry of kind `k` keeps the collection of kind `k`. */
  lemma UpsertedOfKind(s: seq<Slot<Payload>>, e: Entry<Payload>, k: Kind)
    requires OfKind(s, k)
    requires KindOf(e.payload) == k
    ensures OfKind(Upserted(s, e), k)
  {
  }

  /** A delete of an entry of kind `k` keeps the collection of kind `k`. */
  lemma DeletedOfKind(s: seq<Slot<Payload>>, d: Entry<Payload>, k: Kind)
    requires OfKind(s, k)
    requires KindOf(d.payload) == k
    ensures OfKind(Deleted(s, d), k)
  {
  }

  /**
    Create: fetch the schema, set the resource id to the declared name, upsert
    the declared entry into the kind's collection and write that collection
    back. Returns the id that was set and the write-back that was issued.
    An authorizer Create on a schema without an Authorizers message sets the
    id and then panics on the append (main.go:710): nothing is written back.
  */
  method Create(remote: RemoteSchema, k: Kind, declared: Entry<Payload>, fetchOk: bool, writeOk: bool)
    returns (id: Option<string>, sent: Option<seq<Slot<Payload>>>, outcome: Outcome)
    requires remote.Valid()
    requires KindOf(declared.payload) == k
    modifies remote
    ensures remote.Valid()
    ensures forall j :: j != k ==> remote.Collection(j) == old(remote.Collection(j))
    ensures !fetchOk ==> id == None && sent == None && outcome == Failed(FetchFailed)
    ensures fetchOk ==> id == Some(declared.name)
    ensures fetchOk && !old(remote.Appendable(k)) ==> sent == None && outcome == Panicked
    ensures fetchOk && old(remote.Appendable(k)) ==> sent == Some(Upserted(old(remote.Collection(k)), declared))
    ensures fetchOk && old(remote.Appendable(k)) ==> outcome == if writeOk then Done else Failed(WriteBackFailed)
    ensures remote.Collection(k) == if sent.Some? && writeOk then sent.value else old(remote.Collection(k))
    ensures remote.authorizersPresent == (old(remote.authorizersPresent) || (k == Authorizer && sent.Some? && writeOk))
  {
    if !fetchOk {
      return None, None, Failed(FetchFailed);
    }
    var values := remote.Fetch(k);
    id := Some(declared.name);
    var written := Upsert(values, declared);
    if !remote.Appendable(k) {
      // The collection is empty, so the scan found nothing and the append
      // dereferences the nil Authorizers message.
      return id, None, Panicked;
    }
    sent := Some(written);
    if !writeOk {
      return id, sent, Failed(WriteBackFailed);
    }
    UpsertedOfKind(old(remote.Collection(k)), declared, k);
    remote.Replace(k, written);
    outcome := Done;
  }

  /**
    Update: the same steps as Create. The authorizer Update sets the id after
    the scan rather than before it, which changes nothing observable.
  */
  method Update(remote: RemoteSchema, k: Kind, declared: Entry<Payload>, fetchOk: bool, writeOk: bool)
    returns (id: Option<string>, sent: Option<seq<Slot<Payload>>>, outcome: Outcome)
    requires remote.Valid()
    requires KindOf(declared.payload) == k
    modifies remote
    ensures remote.Valid()
    ensures forall j :: j != k ==> remote.Collection(j) == old(remote.Collection(j))
    ensures !fetchOk ==> id == None && sent == None && outcome == Failed(FetchFailed)
    ensures fetchOk ==> id == Some(declared.name)
    ensures fetchOk && !old(remote.Appendable(k)) ==> sent == None && outcome == Panicked
    ensures fetchOk && old(remote.Appendable(k)) ==> sent == Some(Upserted(old(remote.Collection(k)), declared))
    ensures fetchOk && old(remote.Appendable(k)) ==> outcome == if writeOk then Done else Failed(WriteBackFailed)
    ensures remote.Collection(k) == if sent.Some? && writeOk then sent.value else old(remote.Collection(k))
    ensures remote.authorizersPresent == (old(remote.authorizersPresent) || (k == Authorizer && sent.Some? && writeOk))
  {
    id, sent, outcome := Create(remote, k, declared, fetchOk, writeOk);
  }

  /**
    Delete: fetch the schema, locate the last entry with the declared name
    while overwriting every match, and only when one was found remove it with
    `removeX` and write the collection back.
  */
  method Delete(remote: RemoteSchema, k: Kind, declared: Entry<Payload>, fetchOk: bool, writeOk: bool)
    returns (sent: Option<seq<Slot<Payload>>>, outcome: Outcome)
    requires remote.Valid()
    requires KindOf(declared.payload) == k
    modifies remote
    ensures remote.Valid()
    ensures forall j :: j != k ==> remote.Collection(j) == old(remote.Collection(j))
    ensures !fetchOk ==> sent == None && outcome == Failed(FetchFailed)
    ensures fetchOk && !HasName(old(remote.Collection(k)), declared.name) ==> sent == None && outcome == Done
    ensures fetchOk && HasName(old(remote.Collection(k)), declared.name) ==>
              sent == Some(Deleted(old(remote.Collection(k)), declared))
              && outcome == (if writeOk then Done else Failed(WriteBackFailed))
    ensures remote.Collection(k) == if sent.Some? && writeOk then sent.value else old(remote.Collection(k))
    ensures remote.authorizersPresent == (old(remote.authorizersPresent) || (k == Authorizer && sent.Some? && writeOk))
  {
    if !fetchOk {
      return None, Failed(FetchFailed);
    }
    var values := remote.Fetch(k);
    var index := OverwriteMatches(values, declared);
    if index < 0 {
      return None, Done;
    }
    RemoveAt(index, values);
    sent := Some(values[..]);
    if !writeOk {
      return sent, Failed(WriteBackFailed);
    }
    DeletedOfKind(old(remote.Collection(k)), declared, k);
    remote.Replace(k, values[..]);
    outcome := Done;
  }

  /**
    Exists: fetch the schema and report whether an entry of the kind's
    collection is named `id`. Fails only when the fetch fails.
  */
  method Exists(remote: RemoteSchema, k: Kind, id: string, fetchOk: bool)
    returns (has: bool, outcome: Outcome)
    ensures !fetchOk ==> !has && outcome == Failed(FetchFailed)
    ensures fetchOk ==> outcome == Done && (has <==> HasName(remote.Collection(k), id))
  {
    if !fetchOk {
      return false, Failed(FetchFailed);
    }
    var values := remote.Fetch(k);
    has := Contains(values, id);
    outcome := Done;
  }

  /**
    Read: fetch the schema and copy the fields of the entry named `id` into
    the resource state. Every match re-sets the fields, so the last one wins;
    without a match the prior state is left as it was.
  */
  method Read(remote: RemoteSchema, k: Kind, id: string, prior: Entry<Payload>, fetchOk: bool)
    returns (state: Entry<Payload>, outcome: Outcome)
    ensures !fetchOk ==> state == prior && outcome == Failed(FetchFailed)
    ensures fetchOk ==> outcome == Done
    ensures fetchOk && !HasName(remote.Collection(k), id) ==> state == prior
    ensures fetchOk && HasName(remote.Collection(k), id) ==>
              state.name == id
              && state == FieldsOf(k, remote.Collection(k)[LastIndexOf(remote.Collection(k), id)])
  {
    if !fetchOk {
      return prior, Failed(FetchFailed);
    }
    var values := remote.Fetch(k);
    var found := FindLast(values, id);
    state := if found.None? then prior else FieldsOf(k, found.value);
    outcome := Done;
  }

  /**
    Round trip over the operations: a Create whose fetch and write-back
    succeed, followed by a Read of the declared name, yields exactly the
    declared entry. The Create only fails by the authorizer panic.
  */
  method CreateThenRead(remote: RemoteSchema, k: Kind, declared: Entry<Payload>, prior: Entry<Payload>)
    returns (created: Outcome, state: Entry<Payload>)
    requires remote.Valid()
    requires KindOf(declared.payload) == k
    modifies remote
    ensures created == if old(remote.Appendable(k)) then Done else Panicked
    ensures created == Done ==> state == declared
  {
    var id, sent;
    id, sent, created := Create(remote, k, declared, true, true);
    if created == Done {
      UpsertThenRead(old(remote.Collection(k)), declared);
      var read;
      state, read := Read(remote, k, declared.name, prior, true);
    } else {
      state := prior;
    }
  }
}
