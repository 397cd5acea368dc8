/**
  Collection reconciliation of the Graphik Terraform provider, written once for
  every policy kind (index, trigger, constraint, authorizer).

  A fetched collection is a Go slice of message pointers; here it is an
  `array<Slot<P>>` whose `None` slots stand for nil pointers. The methods work
  on that array in place, as the resource closures do on the fetched slice,
  and are proved against the specification functions below (`Upserted`,
  `Deleted`, `LastIndexOf`, ...), whose properties are proved as lemmas.
*/
module Reconcile {

  datatype Option<+T> = None | Some(value: T)

  /** One declared policy object: its unique name and its kind-specific fields. */
  datatype Entry<P> = Entry(name: string, payload: P)

  /** One element of a fetched slice: a message pointer, `None` being nil. */
  type Slot<P> = Option<Entry<P>>

  /** The protobuf getter `GetName()`, which yields "" on a nil message. */
  function NameOf<P>(slot: Slot<P>): string
  {
    match slot
    case None => ""
    case Some(e) => e.name
  }

  /** Some slot of `s` answers to the name `n`. */
  predicate HasName<P>(s: seq<Slot<P>>, n: string)
  {
    exists i :: 0 <= i < |s| && NameOf(s[i]) == n
  }

  /** The positions of `s` that answer to the name `n`. */
  ghost function Matches<P>(s: seq<Slot<P>>, n: string): set<int>
  {
    set i | 0 <= i < |s| && NameOf(s[i]) == n
  }

  /** No two non-nil entries of `s` share a name (the collection invariant). */
  ghost predicate DistinctNames<P>(s: seq<Slot<P>>)
  {
    forall i, j :: 0 <= i < j < |s| && s[i].Some? && s[j].Some? ==> s[i].value.name != s[j].value.name
  }

  /** At most one slot of `s` answers to the name `n`. */
  ghost predicate AtMostOnce<P>(s: seq<Slot<P>>, n: string)
  {
    forall i, j :: 0 <= i < j < |s| && NameOf(s[i]) == n ==> NameOf(s[j]) != n
  }

  /**
    The position of the last slot answering to `n`, or -1: the value the
    delete scan leaves in `index`, since every later match overwrites it.
  */
  function LastIndexOf<P>(s: seq<Slot<P>>, n: string): (r: int)
    ensures -1 <= r < |s|
    ensures r == -1 <==> !HasName(s, n)
    ensures r >= 0 ==> NameOf(s[r]) == n
    ensures r >= 0 ==> forall j :: r < j < |s| ==> NameOf(s[j]) != n
    decreases |s|
  {
    if |s| == 0 then -1
    else if NameOf(s[|s| - 1]) == n then |s| - 1
    else
      var r := LastIndexOf(s[..|s| - 1], n);
      assert forall j :: 0 <= j < |s| - 1 ==> s[..|s| - 1][j] == s[j];
      r
  }

  /** A matching position with no later match, or -1 when nothing matches, is `LastIndexOf`. */
  lemma LastIndexOfIsUnique<P>(s: seq<Slot<P>>, n: string, r: int)
    requires -1 <= r < |s|
    requires r >= 0 ==> NameOf(s[r]) == n
    requires forall j :: r < j < |s| ==> NameOf(s[j]) != n
    ensures LastIndexOf(s, n) == r
  {
  }

  /** The last slot answering to `n`, if any: what a Read copies its fields from. */
  function LastMatch<P>(s: seq<Slot<P>>, n: string): Option<Slot<P>>
  {
    var i := LastIndexOf(s, n);
    if i < 0 then None else Some(s[i])
  }

  /** One step of the scan: a slot answering to the declared name is replaced whole. */
  function Overwrite<P>(slot: Slot<P>, e: Entry<P>): Slot<P>
  {
    if NameOf(slot) == e.name then Some(e) else slot
  }

  /** The slice after the overwrite scan, slot by slot. */
  function Overwritten<P>(s: seq<Slot<P>>, e: Entry<P>): (r: seq<Slot<P>>)
    ensures |r| == |s|
  {
    seq(|s|, i requires 0 <= i < |s| => Overwrite(s[i], e))
  }

  /** The slice written back by Create and Update: every match replaced, or `e` appended. */
  function Upserted<P>(s: seq<Slot<P>>, e: Entry<P>): seq<Slot<P>>
  {
    Overwritten(s, e) + (if HasName(s, e.name) then [] else [Some(e)])
  }

  /** `removeX(i, values)` as written: the last slot moves to `i`, the last slot becomes nil, the length stays. */
  function RemovedAt<P>(t: seq<Slot<P>>, i: int): seq<Slot<P>>
    requires 0 <= i < |t|
  {
    t[i := t[|t| - 1]][|t| - 1 := None]
  }

  /** The slice written back by Delete when the declared name is found. */
  function Deleted<P>(s: seq<Slot<P>>, d: Entry<P>): seq<Slot<P>>
  {
    var i := LastIndexOf(s, d.name);
    if i < 0 then s else RemovedAt(Overwritten(s, d), i)
  }

  /**
    The swap-delete that `removeX` evidently intends: the last slot moves to
    `i` and the slice is one shorter. The result is `t` without one copy of `t[i]`.
  */
  function SwapRemoved<P>(t: seq<Slot<P>>, i: int): (r: seq<Slot<P>>)
    requires 0 <= i < |t|
    ensures |r| == |t| - 1
    ensures multiset(r) == multiset(t) - multiset{t[i]}
  {
    var last := |t| - 1;
    var u := t[i := t[last]];
    assert u == u[..last] + [u[last]];
    assert u[last] == t[last];
    assert multiset(u) == multiset(t) - multiset{t[i]} + multiset{t[last]};
    assert multiset(u[..last]) == multiset(u) - multiset{t[last]};
    u[..last]
  }

  // ---------------------------------------------------------------------------
  // The in-place operations on a fetched slice
  // ---------------------------------------------------------------------------

  /**
    The Create/Update scan: every slot answering to the declared name is
    overwritten in place; when none did, the entry is appended. Returns the
    slice handed to the write-back.
  */
  method Upsert<P>(values: array<Slot<P>>, desired: Entry<P>) returns (written: seq<Slot<P>>)
    modifies values
    ensures values[..] == Overwritten(old(values[..]), desired)
    ensures written == Upserted(old(values[..]), desired)
  {
    ghost var s := values[..];
    var has := false;
    var i := 0;
    while i < values.Length
      invariant 0 <= i <= values.Length
      invariant forall j :: 0 <= j < i ==> values[j] == Overwrite(s[j], desired)
      invariant forall j :: i <= j < values.Length ==> values[j] == s[j]
      invariant has <==> exists j :: 0 <= j < i && NameOf(s[j]) == desired.name
    {
      if NameOf(values[i]) == desired.name {
        has := true;
        values[i] := Some(desired);
      }
      i := i + 1;
    }
    assert values[..] == Overwritten(s, desired);
    written := values[..];
    if !has {
      written := written + [Some(desired)];
    }
  }

  /**
    The Delete scan: records the position of the last slot answering to the
    declared name (-1 when none does) and overwrites every such slot in place.
  */
  method OverwriteMatches<P>(values: array<Slot<P>>, declared: Entry<P>) returns (index: int)
    modifies values
    ensures index == LastIndexOf(old(values[..]), declared.name)
    ensures values[..] == Overwritten(old(values[..]), declared)
  {
    ghost var s := values[..];
    index := -1;
    var i := 0;
    while i < values.Length
      invariant 0 <= i <= values.Length
      invariant -1 <= index < i
      invariant index >= 0 ==> NameOf(s[index]) == declared.name
      invariant forall j :: index < j < i ==> NameOf(s[j]) != declared.name
      invariant forall j :: 0 <= j < i ==> values[j] == Overwrite(s[j], declared)
      invariant forall j :: i <= j < values.Length ==> values[j] == s[j]
    {
      if NameOf(values[i]) == declared.name {
        index := i;
        values[i] := Some(declared);
      }
      i := i + 1;
    }
    LastIndexOfIsUnique(s, declared.name, index);
    assert values[..] == Overwritten(s, declared);
  }

  /**
    `removeX(i, values)`: the old last element lands in slot `i` and the last
    slot becomes nil. The caller's slice keeps its length, since the re-slice
    inside only rebinds the parameter.
  */
  method RemoveAt<P>(i: int, values: array<Slot<P>>)
    requires 0 <= i < values.Length
    modifies values
    ensures i < values.Length - 1 ==> values[i] == old(values[values.Length - 1])
    ensures values[values.Length - 1] == None
    ensures forall j :: 0 <= j < values.Length && j != i && j != values.Length - 1 ==> values[j] == old(values[j])
    ensures values[..] == RemovedAt(old(values[..]), i)
  {
    values[i] := values[values.Length - 1];
    values[values.Length - 1] := None;
  }

  /** The Exists scan: a flag set by every slot answering to `id`. */
  method Contains<P>(values: array<Slot<P>>, id: string) returns (has: bool)
    ensures has <==> HasName(values[..], id)
  {
    has := false;
    var i := 0;
    while i < values.Length
      invariant 0 <= i <= values.Length
      invariant has <==> exists j :: 0 <= j < i && NameOf(values[j]) == id
    {
      if NameOf(values[i]) == id {
        has := true;
      }
      i := i + 1;
    }
  }

  /** The Read scan: every slot answering to `id` re-sets the result, so the last one wins. */
  method FindLast<P>(values: array<Slot<P>>, id: string) returns (found: Option<Slot<P>>)
    ensures found.None? <==> !HasName(values[..], id)
    ensures found.Some? ==> NameOf(found.value) == id
    ensures found == LastMatch(values[..], id)
  {
    ghost var s := values[..];
    ghost var at := -1;
    found := None;
    var i := 0;
    while i < values.Length
      invariant 0 <= i <= values.Length
      invariant -1 <= at < i
      invariant at >= 0 ==> NameOf(s[at]) == id
      invariant forall j :: at < j < i ==> NameOf(s[j]) != id
      invariant found == if at < 0 then None else Some(s[at])
    {
      if NameOf(values[i]) == id {
        found := Some(values[i]);
        at := i;
      }
      i := i + 1;
    }
    LastIndexOfIsUnique(s, id, at);
  }

  // ---------------------------------------------------------------------------
  // Properties of upsert
  // ---------------------------------------------------------------------------

  /**
    Upsert replaces every slot named like `e` by `e` whole, keeps every other
    slot in place, and appends `e` exactly when nothing matched.
  */
  lemma UpsertedShape<P>(s: seq<Slot<P>>, e: Entry<P>)
    ensures HasName(s, e.name) ==> |Upserted(s, e)| == |s|
    ensures !HasName(s, e.name) ==> |Upserted(s, e)| == |s| + 1 && Upserted(s, e)[|s|] == Some(e)
    ensures forall i :: 0 <= i < |s| && NameOf(s[i]) == e.name ==> Upserted(s, e)[i] == Some(e)
    ensures forall i :: 0 <= i < |s| && NameOf(s[i]) != e.name ==> Upserted(s, e)[i] == s[i]
  {
  }

  /** After an upsert the name is present, and every slot answering to it holds `e`. */
  lemma {:induction false} UpsertedMatchesAreDesired<P>(s: seq<Slot<P>>, e: Entry<P>)
    ensures HasName(Upserted(s, e), e.name)
    ensures forall i :: 0 <= i < |Upserted(s, e)| && NameOf(Upserted(s, e)[i]) == e.name ==> Upserted(s, e)[i] == Some(e)
  {
    var r := Upserted(s, e);
    if HasName(s, e.name) {
      var k :| 0 <= k < |s| && NameOf(s[k]) == e.name;
      assert r[k] == Some(e);
    } else {
      assert r[|s|] == Some(e);
    }
  }

  /** Round trip: a Read after an upsert finds exactly the upserted entry. */
  lemma UpsertThenRead<P>(s: seq<Slot<P>>, e: Entry<P>)
    ensures LastMatch(Upserted(s, e), e.name) == Some(Some(e))
  {
    UpsertedMatchesAreDesired(s, e);
  }

  /**
    Two upserts of the same name: the second entry replaces the first whole,
    with no field of the first surviving.
  */
  lemma {:induction false} UpsertSupersedes<P>(s: seq<Slot<P>>, e1: Entry<P>, e2: Entry<P>)
    requires e1.name == e2.name
    ensures Upserted(Upserted(s, e1), e2) == Upserted(s, e2)
  {
    var r1 := Upserted(s, e1);
    UpsertedMatchesAreDesired(s, e1);
    var lhs := Overwritten(r1, e2);
    var rhs := Upserted(s, e2);
    assert |lhs| == |rhs|;
    forall i | 0 <= i < |lhs|
      ensures lhs[i] == rhs[i]
    {
      if i < |s| {
        assert r1[i] == Overwrite(s[i], e1);
      } else {
        assert !HasName(s, e1.name) && r1[i] == Some(e1);
      }
    }
  }

  /** Upsert is idempotent: re-running it with the same entry changes nothing. */
  lemma UpsertIdempotent<P>(s: seq<Slot<P>>, e: Entry<P>)
    ensures Upserted(Upserted(s, e), e) == Upserted(s, e)
  {
    UpsertSupersedes(s, e, e);
  }

  /**
    For a non-empty name, upsert keeps the collection's names distinct and
    leaves exactly one entry with the declared name.
  */
  lemma {:induction false} UpsertKeepsNamesDistinct<P>(s: seq<Slot<P>>, e: Entry<P>)
    requires DistinctNames(s)
    requires e.name != ""
    ensures DistinctNames(Upserted(s, e))
    ensures |Matches(Upserted(s, e), e.name)| == 1
  {
    var r := Upserted(s, e);
    forall i, j | 0 <= i < j < |r| && r[i].Some? && r[j].Some?
      ensures r[i].value.name != r[j].value.name
    {
      if j < |s| {
        if NameOf(s[i]) == e.name {
          assert NameOf(s[j]) != e.name;
        } else if NameOf(s[j]) == e.name {
          assert r[i] == s[i];
        }
      } else {
        assert !HasName(s, e.name);
        assert NameOf(s[i]) != e.name;
      }
    }
    var k := LastIndexOf(r, e.name);
    UpsertedMatchesAreDesired(s, e);
    forall j | 0 <= j < |r| && NameOf(r[j]) == e.name
      ensures j == k
    {
      assert r[j] == Some(e) && r[k] == Some(e);
    }
    assert Matches(r, e.name) == {k};
  }

  // ---------------------------------------------------------------------------
  // Properties of delete
  // ---------------------------------------------------------------------------

  /** When nothing answers to the declared name, delete leaves the slice as it was. */
  lemma DeleteAbsent<P>(s: seq<Slot<P>>, d: Entry<P>)
    requires !HasName(s, d.name)
    ensures Overwritten(s, d) == s
    ensures Deleted(s, d) == s
  {
  }

  /**
    As written, a delete that finds the name keeps the slice's length: the
    old last slot moves to the removed position and the last slot is nil.
  */
  lemma DeleteKeepsLength<P>(s: seq<Slot<P>>, d: Entry<P>)
    requires HasName(s, d.name)
    ensures |Deleted(s, d)| == |s|
    ensures Deleted(s, d)[|s| - 1] == None
    ensures LastIndexOf(s, d.name) < |s| - 1 ==> Deleted(s, d)[LastIndexOf(s, d.name)] == s[|s| - 1]
  {
  }

  /** Deleting `a` from `[a, b]` writes back `[b, nil]`, not `[b]`. */
  lemma DeleteFirstOfTwo<P>(a: Entry<P>, b: Entry<P>)
    requires a.name != b.name
    ensures Deleted([Some(a), Some(b)], a) == [Some(b), None]
    ensures SwapRemoved([Some(a), Some(b)], 0) == [Some(b)]
  {
  }

  /**
    When the name occurs at most once, the as-written delete is the intended
    swap-delete followed by one nil slot.
  */
  lemma DeletedIsSwapRemovedThenNil<P>(s: seq<Slot<P>>, d: Entry<P>)
    requires AtMostOnce(s, d.name)
    requires HasName(s, d.name)
    ensures Deleted(s, d) == SwapRemoved(s, LastIndexOf(s, d.name)) + [None]
  {
  }

  /**
    The permutation property: with the name held once, delete keeps every
    other entry (in some order), drops the matched one and adds one nil.
  */
  lemma DeletedPermutes<P>(s: seq<Slot<P>>, d: Entry<P>)
    requires AtMostOnce(s, d.name)
    requires HasName(s, d.name)
    ensures multiset(Deleted(s, d)) == multiset(s) - multiset{s[LastIndexOf(s, d.name)]} + multiset{None}
  {
    DeletedIsSwapRemovedThenNil(s, d);
  }

  /**
    With distinct names and a non-empty name, the intended swap-delete removes
    the entry: the result is one shorter, has no entry of that name, and keeps
    names distinct.
  */
  lemma SwapRemovedDropsName<P>(s: seq<Slot<P>>, n: string)
    requires DistinctNames(s)
    requires n != ""
    requires HasName(s, n)
    ensures |SwapRemoved(s, LastIndexOf(s, n))| == |s| - 1
    ensures !HasName(SwapRemoved(s, LastIndexOf(s, n)), n)
    ensures DistinctNames(SwapRemoved(s, LastIndexOf(s, n)))
  {
  }

  /**
    As written, with distinct names and a non-empty name, the written-back
    slice no longer holds the declared name: only the trailing nil is new.
  */
  lemma DeletedDropsName<P>(s: seq<Slot<P>>, d: Entry<P>)
    requires DistinctNames(s)
    requires d.name != ""
    requires HasName(s, d.name)
    ensures !HasName(Deleted(s, d), d.name)
  {
  }
}
