/** The position store: the component's single `positions` list and the
    three handlers that replace it (add, update, delete). Each handler
    rebuilds the list from the old one, as the component does with
    `setPositions`; the pure functions below are those rebuilds. */
module Store {
  import opened Positions
  import opened JsText

  // ---------------------------------------------------------------------
  // Add

  /** The guard of the add handler: a name that is not blank after `trim`,
      and shares, price and target weight that are numbers above zero. Any
      one failing field is enough to reject. */
  predicate AcceptsNewPosition(name: string, shares: Option<real>, price: Option<real>, weight: Option<real>)
    ensures AcceptsNewPosition(name, shares, price, weight) <==>
      !IsBlank(name)
      && shares.Some? && shares.value > 0.0
      && price.Some? && price.value > 0.0
      && weight.Some? && weight.value > 0.0
  {
    !(Trim(name) == [] || shares.None? || price.None? || weight.None?
      || shares.value <= 0.0 || price.value <= 0.0 || weight.value <= 0.0)
  }

  // ---------------------------------------------------------------------
  // Update

  /** The fields an edit may supply; the identifier cannot be edited. */
  datatype PositionUpdate = PositionUpdate(
    name: Option<string>,
    shares: Option<real>,
    price: Option<real>,
    targetWeight: Option<real>)

  function Override<T>(current: T, supplied: Option<T>): T
  {
    if supplied.Some? then supplied.value else current
  }

  /** The edit leaves `p` as it is: every supplied field already holds the
      supplied value. */
  predicate AlreadyAgrees(p: Position, u: PositionUpdate)
  {
    (u.name.Some? ==> u.name.value == p.name)
    && (u.shares.Some? ==> u.shares.value == p.shares)
    && (u.price.Some? ==> u.price.value == p.price)
    && (u.targetWeight.Some? ==> u.targetWeight.value == p.targetWeight)
  }

  /** The object spread `{ ...position, ...updates }`: supplied fields win,
      the others and the identifier are kept. No field is validated, so a
      price of zero or below goes through. */
  function Merge(p: Position, u: PositionUpdate): (q: Position)
    ensures q.id == p.id
    ensures u.name.None? ==> q.name == p.name
    ensures u.shares.None? ==> q.shares == p.shares
    ensures u.price.None? ==> q.price == p.price
    ensures u.targetWeight.None? ==> q.targetWeight == p.targetWeight
    ensures q == p <==> AlreadyAgrees(p, u)
    ensures AlreadyAgrees(q, u)
  {
    Position(p.id, Override(p.name, u.name), Override(p.shares, u.shares),
             Override(p.price, u.price), Override(p.targetWeight, u.targetWeight))
  }

  /** Spreading the same edit twice gives what spreading it once gives. */
  lemma MergeIdempotent(p: Position, u: PositionUpdate)
    ensures Merge(Merge(p, u), u) == Merge(p, u)
  {
  }

  /** The update handler's `positions.map(...)`: the records whose id
      matches are merged with the edit, the others are kept. Length, order
      and every identifier stay as they were. */
  function Updated(ps: seq<Position>, id: string, u: PositionUpdate): (r: seq<Position>)
    ensures |r| == |ps|
    ensures forall i :: 0 <= i < |ps| ==> r[i].id == ps[i].id
    ensures forall i :: 0 <= i < |ps| && ps[i].id != id ==> r[i] == ps[i]
    ensures forall i :: 0 <= i < |ps| && ps[i].id == id ==> r[i] == Merge(ps[i], u)
  {
    seq(|ps|, i requires 0 <= i < |ps| => if ps[i].id == id then Merge(ps[i], u) else ps[i])
  }

  /** An identifier that is not in the list makes the update a no-op. */
  lemma UpdateAbsentIdIsNoop(ps: seq<Position>, id: string, u: PositionUpdate)
    requires !HasId(ps, id)
    ensures Updated(ps, id, u) == ps
  {
  }

  /** With unique ids, the update replaces exactly the one record that
      carries the id, in place. */
  lemma UpdateChangesOnlyThatRecord(ps: seq<Position>, k: int, u: PositionUpdate)
    requires UniqueIds(ps) && 0 <= k < |ps|
    ensures Updated(ps, ps[k].id, u) == ps[..k] + [Merge(ps[k], u)] + ps[k + 1..]
  {
  }

  /** Updating never breaks id uniqueness. */
  lemma UpdateKeepsUniqueIds(ps: seq<Position>, id: string, u: PositionUpdate)
    requires UniqueIds(ps)
    ensures UniqueIds(Updated(ps, id, u))
  {
  }

  // ---------------------------------------------------------------------
  // Delete

  /** An id occurs in a non-empty list when it is the first record's or
      occurs in the rest. */
  lemma HasIdCons(ps: seq<Position>, id: string)
    requires ps != []
    ensures HasId(ps, id) <==> ps[0].id == id || HasId(ps[1..], id)
  {
  }

  /** The delete handler's `positions.filter(p => p.id !== id)`: never
      longer than the list, and no record with the id is left. */
  function WithoutId(ps: seq<Position>, id: string): (r: seq<Position>)
    ensures |r| <= |ps|
    ensures forall i :: 0 <= i < |r| ==> r[i].id != id
  {
    if ps == [] then []
    else
      if ps[0].id != id then [ps[0]] + WithoutId(ps[1..], id)
      else WithoutId(ps[1..], id)
  }

  /** Filtering a concatenation filters each part. */
  lemma {:induction false} WithoutIdAppend(a: seq<Position>, b: seq<Position>, id: string)
    ensures WithoutId(a + b, id) == WithoutId(a, id) + WithoutId(b, id)
  {
    if a == [] {
      assert a + b == b;
    } else {
      var ab := a + b;
      assert ab[0] == a[0] && ab[1..] == a[1..] + b;
      WithoutIdAppend(a[1..], b, id);
      var head := if a[0].id != id then [a[0]] else [];
      assert WithoutId(ab, id) == head + WithoutId(a[1..] + b, id);
      assert WithoutId(a, id) == head + WithoutId(a[1..], id);
    }
  }

  /** An identifier that is not in the list leaves it identical. */
  lemma {:induction false} DeleteAbsentIdIsNoop(ps: seq<Position>, id: string)
    requires !HasId(ps, id)
    ensures WithoutId(ps, id) == ps
  {
    if ps != [] {
      assert ps[0].id != id;
      DeleteAbsentIdIsNoop(ps[1..], id);
      assert ps == [ps[0]] + ps[1..];
    }
  }

  /** With unique ids, record `k` is the only one carrying its id. */
  lemma OnlyRecordWithItsId(ps: seq<Position>, k: int)
    requires UniqueIds(ps) && 0 <= k < |ps|
    ensures !HasId(ps[..k], ps[k].id) && !HasId(ps[k + 1..], ps[k].id)
  {
  }

  /** With unique ids, deleting the id of record `k` removes that record
      and nothing else, and keeps the order of the rest. */
  lemma DeleteRemovesExactlyThatRecord(ps: seq<Position>, k: int)
    requires UniqueIds(ps) && 0 <= k < |ps|
    ensures WithoutId(ps, ps[k].id) == ps[..k] + ps[k + 1..]
  {
    OnlyRecordWithItsId(ps, k);
    assert ps == ps[..k] + [ps[k]] + ps[k + 1..];
    DeleteBetween(ps[..k], ps[k], ps[k + 1..]);
  }

  /** Deleting the id of a record that is the only one carrying it splices
      that record out. */
  lemma DeleteBetween(before: seq<Position>, x: Position, after: seq<Position>)
    requires !HasId(before, x.id) && !HasId(after, x.id)
    ensures WithoutId(before + [x] + after, x.id) == before + after
  {
    DeleteAbsentIdIsNoop(before, x.id);
    DeleteAbsentIdIsNoop(after, x.id);
    assert before + [x] + after == before + ([x] + after);
    WithoutIdAppend(before, [x] + after, x.id);
    WithoutIdAppend([x], after, x.id);
    assert WithoutId([x], x.id) == [];
  }

  /** The filter keeps exactly the records whose id differs from `id`. */
  lemma {:induction false} WithoutIdMembers(ps: seq<Position>, id: string)
    ensures forall p :: p in WithoutId(ps, id) <==> p in ps && p.id != id
  {
    if ps != [] {
      WithoutIdMembers(ps[1..], id);
      assert forall p :: p in ps <==> p == ps[0] || p in ps[1..] by {
        assert ps == [ps[0]] + ps[1..];
      }
    }
  }

  /** The list gets shorter exactly when the id was present. */
  lemma {:induction false} WithoutIdShorterIffPresent(ps: seq<Position>, id: string)
    ensures HasId(ps, id) <==> |WithoutId(ps, id)| < |ps|
  {
    if ps != [] {
      HasIdCons(ps, id);
      WithoutIdShorterIffPresent(ps[1..], id);
    }
  }

  /** Deleting never breaks id uniqueness. */
  lemma {:induction false} DeleteKeepsUniqueIds(ps: seq<Position>, id: string)
    requires UniqueIds(ps)
    ensures UniqueIds(WithoutId(ps, id))
  {
    if ps != [] {
      var rest := WithoutId(ps[1..], id);
      DeleteKeepsUniqueIds(ps[1..], id);
      WithoutIdMembers(ps[1..], id);
      if ps[0].id != id {
        forall j | 0 <= j < |rest| ensures rest[j].id != ps[0].id {
          assert rest[j] in ps[1..];
          var m :| 0 <= m < |ps[1..]| && ps[1..][m] == rest[j];
          assert ps[m + 1] == rest[j];
        }
        var r := [ps[0]] + rest;
        forall i, j | 0 <= i < j < |r| ensures r[i].id != r[j].id {
          if i > 0 {
            assert r[i] == rest[i - 1] && r[j] == rest[j - 1];
          } else {
            assert r[j] == rest[j - 1];
          }
        }
      }
    }
  }

  /** Appending a record with a fresh id keeps ids unique. */
  lemma AddKeepsUniqueIds(ps: seq<Position>, p: Position)
    requires UniqueIds(ps) && !HasId(ps, p.id)
    ensures UniqueIds(ps + [p])
  {
  }

  // ---------------------------------------------------------------------
  // The store

  /** The component's `positions` state. Its one invariant is that ids are
      pairwise distinct; the add handler draws each new id afresh. */
  class PositionStore {
    var positions: seq<Position>

    ghost predicate Valid()
      reads this
    {
      UniqueIds(positions)
    }

    /** The component mounts with no positions. */
    constructor ()
      ensures Valid() && positions == []
    {
      positions := [];
    }

    /** The add handler. `newId` stands for the random UUID the handler
        draws; it is not yet in the list. On a rejected form the list is
        left as it is; on an accepted one exactly one record, carrying the
        form's values, is appended at the end. */
    method AddPosition(newId: string, name: string, shares: Option<real>, price: Option<real>, weight: Option<real>)
      returns (added: bool)
      requires Valid()
      requires !HasId(positions, newId)
      modifies this
      ensures Valid()
      ensures added <==> AcceptsNewPosition(name, shares, price, weight)
      ensures added ==> positions == old(positions) + [Position(newId, name, shares.value, price.value, weight.value)]
      ensures !added ==> positions == old(positions)
    {
      if !AcceptsNewPosition(name, shares, price, weight) {
        return false;
      }
      var p := Position(newId, name, shares.value, price.value, weight.value);
      AddKeepsUniqueIds(positions, p);
      positions := positions + [p];
      added := true;
    }

    /** The update handler: merges the edit into the record(s) with `id`. */
    method UpdatePosition(id: string, updates: PositionUpdate)
      requires Valid()
      modifies this
      ensures Valid()
      ensures positions == Updated(old(positions), id, updates)
    {
      UpdateKeepsUniqueIds(positions, id, updates);
      positions := Updated(positions, id, updates);
    }

    /** The delete handler: drops the record(s) with `id`. */
    method DeletePosition(id: string)
      requires Valid()
      modifies this
      ensures Valid()
      ensures positions == WithoutId(old(positions), id)
    {
      DeleteKeepsUniqueIds(positions, id);
      positions := WithoutId(positions, id);
    }
  }
}
