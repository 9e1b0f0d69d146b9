/** User records and the two list transformations the component applies to
    its collection: replace-by-`id` (an `Array.prototype.map`) and
    remove-by-`_id` (an `Array.prototype.filter`). */
module Users {
  import opened Js

  /** One record as the backend returns it. Both identifier fields are
      optional: `id` is the field the update path matches on, `underscoreId`
      is the field named `_id`, which the edit and delete paths use. */
  datatype User = User(id: Value, underscoreId: Value, name: string, email: string)

  /** Which of the two identifier fields a statement is about. */
  datatype Field = Id | UnderscoreId

  function Key(u: User, f: Field): Value {
    match f
    case Id => u.id
    case UnderscoreId => u.underscoreId
  }

  /** No two records of `us` agree on field `f`. */
  predicate UniqueBy(us: seq<User>, f: Field) {
    forall i, j :: 0 <= i < j < |us| ==> Key(us[i], f) != Key(us[j], f)
  }

  /** `us.map(user => user.id === updated.id ? updated : user)`: every record
      whose `id` strictly equals `updated.id` becomes `updated`, every other
      record stays, and positions are kept. */
  function ReplaceMatching(us: seq<User>, updated: User): (r: seq<User>)
    ensures |r| == |us|
    ensures forall k :: 0 <= k < |us| ==> r[k] == (if us[k].id == updated.id then updated else us[k])
  {
    if us == [] then []
    else [if us[0].id == updated.id then updated else us[0]] + ReplaceMatching(us[1..], updated)
  }

  /** `us.filter(user => user._id !== id)`: what remains never carries the
      removed `_id` and is never longer than `us`. */
  function RemoveMatching(us: seq<User>, id: Value): (r: seq<User>)
    ensures |r| <= |us|
    ensures forall k :: 0 <= k < |r| ==> r[k].underscoreId != id
  {
    if us == [] then []
    else (if us[0].underscoreId != id then [us[0]] else []) + RemoveMatching(us[1..], id)
  }

  /** The number of records of `us` whose `_id` strictly equals `id`. */
  function Count(us: seq<User>, id: Value): (n: nat)
    ensures n <= |us|
    ensures n == 0 <== forall k :: 0 <= k < |us| ==> us[k].underscoreId != id
  {
    if us == [] then 0 else (if us[0].underscoreId == id then 1 else 0) + Count(us[1..], id)
  }

  /** `a` can be obtained from `b` by deleting elements, keeping the order of
      the rest. Matching greedily from the front decides this exactly. */
  predicate IsSubsequence(a: seq<User>, b: seq<User>)
    decreases |b|
  {
    if a == [] then true
    else if b == [] then false
    else if a[0] == b[0] then IsSubsequence(a[1..], b[1..])
    else IsSubsequence(a, b[1..])
  }

  // ---- replace (the update path) ----

  /** When no record carries the returned `id`, the list is unchanged. */
  lemma ReplaceWithoutMatch(us: seq<User>, updated: User)
    requires forall k :: 0 <= k < |us| ==> us[k].id != updated.id
    ensures ReplaceMatching(us, updated) == us
  {
  }

  /** Replacing twice with the same record is replacing once. */
  lemma ReplaceIdempotent(us: seq<User>, updated: User)
    ensures ReplaceMatching(ReplaceMatching(us, updated), updated) == ReplaceMatching(us, updated)
  {
  }

  /** Replacing never changes any position's `id`, so it keeps unique `id`s unique. */
  lemma ReplaceKeepsIds(us: seq<User>, updated: User)
    ensures forall k :: 0 <= k < |us| ==> ReplaceMatching(us, updated)[k].id == us[k].id
    ensures UniqueBy(us, Id) ==> UniqueBy(ReplaceMatching(us, updated), Id)
  {
  }

  /** With unique `id`s (`undefined` among them), exactly the one record with the returned
      `id` (if any) is replaced: at most one position changes. */
  lemma ReplaceAtMostOne(us: seq<User>, updated: User, k: nat)
    requires UniqueBy(us, Id)
    requires k < |us| && us[k].id == updated.id
    ensures ReplaceMatching(us, updated) == us[k := updated]
  {
  }

  /** JavaScript's `undefined === undefined`: when the returned record has no
      `id` and neither has any listed record, every record is replaced. */
  lemma ReplaceAllWhenIdsMissing(us: seq<User>, updated: User)
    requires updated.id == Undefined
    requires forall k :: 0 <= k < |us| ==> us[k].id == Undefined
    ensures ReplaceMatching(us, updated) == seq(|us|, _ => updated)
  {
  }

  // ---- remove (the delete path) ----

  /** Removal takes out exactly the records counted by `Count`. */
  lemma {:induction false} RemoveLength(us: seq<User>, id: Value)
    ensures |RemoveMatching(us, id)| == |us| - Count(us, id)
  {
    if us != [] {
      RemoveLength(us[1..], id);
    }
  }

  /** What remains is in the original order. */
  lemma {:induction false} RemoveIsSubsequence(us: seq<User>, id: Value)
    ensures IsSubsequence(RemoveMatching(us, id), us)
  {
    if us != [] {
      RemoveIsSubsequence(us[1..], id);
      var t := RemoveMatching(us[1..], id);
      if us[0].underscoreId != id {
        var r := RemoveMatching(us, id);
        assert r == [us[0]] + t;
        assert r[1..] == t;
      } else if t != [] {
        assert RemoveMatching(us, id) == t;
        assert t[0] in t;
        assert t[0] != us[0];
      }
    }
  }

  /** Membership: exactly the records of `us` that avoid `id` remain. */
  lemma {:induction false} RemoveMembership(us: seq<User>, id: Value, u: User)
    ensures u in RemoveMatching(us, id) <==> u in us && u.underscoreId != id
  {
    if us != [] {
      RemoveMembership(us[1..], id, u);
      assert us == [us[0]] + us[1..];
    }
  }

  /** A subsequence of `b` that avoids `_id` `id` is no longer than what the
      filter keeps. */
  lemma {:induction false} SubsequenceBound(r: seq<User>, b: seq<User>, id: Value)
    requires IsSubsequence(r, b)
    requires forall k :: 0 <= k < |r| ==> r[k].underscoreId != id
    ensures |r| <= |b| - Count(b, id)
    decreases |b|
  {
    if r != [] && b != [] {
      if r[0] == b[0] {
        SubsequenceBound(r[1..], b[1..], id);
      } else {
        SubsequenceBound(r, b[1..], id);
      }
    }
  }

  /** The filter is the ONLY order-preserving selection of `us` that avoids
      `id` and drops no more records than carry `id`: subsequence, avoidance
      and length together pin the result down. */
  lemma {:induction false} RemoveIsTheFilter(us: seq<User>, id: Value, r: seq<User>)
    requires IsSubsequence(r, us)
    requires forall k :: 0 <= k < |r| ==> r[k].underscoreId != id
    requires |r| == |us| - Count(us, id)
    ensures r == RemoveMatching(us, id)
  {
    RemoveLength(us, id);
    if us != [] && r != [] {
      if r[0] == us[0] {
        RemoveIsTheFilter(us[1..], id, r[1..]);
        assert r == [r[0]] + r[1..];
      } else {
        SubsequenceBound(r, us[1..], id);
        RemoveIsTheFilter(us[1..], id, r);
      }
    }
  }

  /** When no record carries `id`, removal changes nothing. */
  lemma {:induction false} RemoveWithoutMatch(us: seq<User>, id: Value)
    requires forall k :: 0 <= k < |us| ==> us[k].underscoreId != id
    ensures RemoveMatching(us, id) == us
  {
    if us != [] {
      RemoveWithoutMatch(us[1..], id);
      assert us == [us[0]] + us[1..];
    }
  }

  /** Removing twice is removing once. */
  lemma RemoveIdempotent(us: seq<User>, id: Value)
    ensures RemoveMatching(RemoveMatching(us, id), id) == RemoveMatching(us, id)
  {
    RemoveWithoutMatch(RemoveMatching(us, id), id);
  }

  /** Removal distributes over concatenation. */
  lemma {:induction false} RemoveConcat(a: seq<User>, b: seq<User>, id: Value)
    ensures RemoveMatching(a + b, id) == RemoveMatching(a, id) + RemoveMatching(b, id)
  {
    if a == [] {
      assert a + b == b;
    } else {
      var head := if a[0].underscoreId != id then [a[0]] else [];
      RemoveConcat(a[1..], b, id);
      assert (a + b)[0] == a[0];
      assert (a + b)[1..] == a[1..] + b;
      assert RemoveMatching(a + b, id) == head + RemoveMatching(a[1..] + b, id);
      assert RemoveMatching(a, id) == head + RemoveMatching(a[1..], id);
    }
  }

  /** Appending a record and then removing its (fresh) `_id` restores the list. */
  lemma AppendThenRemove(us: seq<User>, u: User)
    requires forall k :: 0 <= k < |us| ==> us[k].underscoreId != u.underscoreId
    ensures RemoveMatching(us + [u], u.underscoreId) == us
  {
    RemoveConcat(us, [u], u.underscoreId);
    RemoveWithoutMatch(us, u.underscoreId);
  }

  /** Removal keeps unique keys unique, for either identifier field. */
  lemma {:induction false} RemoveKeepsUnique(us: seq<User>, id: Value, f: Field)
    requires UniqueBy(us, f)
    ensures UniqueBy(RemoveMatching(us, id), f)
  {
    if us != [] {
      var t := RemoveMatching(us[1..], id);
      RemoveKeepsUnique(us[1..], id, f);
      if us[0].underscoreId != id {
        var r := RemoveMatching(us, id);
        assert r == [us[0]] + t;
        forall k | 0 <= k < |t|
          ensures Key(us[0], f) != Key(t[k], f)
        {
          assert t[k] in t;
          RemoveMembership(us[1..], id, t[k]);
          var j :| 0 <= j < |us[1..]| && us[1..][j] == t[k];
          assert us[j + 1] == t[k];
        }
      }
    }
  }

  /** Appending a record whose key is not yet present keeps keys unique. */
  lemma AppendKeepsUnique(us: seq<User>, u: User, f: Field)
    requires UniqueBy(us, f)
    requires forall k :: 0 <= k < |us| ==> Key(us[k], f) != Key(u, f)
    ensures UniqueBy(us + [u], f)
  {
  }
}
