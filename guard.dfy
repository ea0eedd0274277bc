/**
 When a paste may be read. `IsAccessible` is the policy in its plain form;
 `GuardFilter` is the query that the two GET routes of server/index.js hand to
 `findOneAndUpdate`, written as a small query language with MongoDB's meaning.
 `GuardSelectsAccessible` shows that the query selects exactly the accessible
 document with the requested id.
 */
module Guard {
  import opened Wrappers
  import opened PasteSchema

  /** The time clause: no expiry, or expiry strictly after `now`. */
  predicate TimeOk(p: Paste, now: int)
  {
    p.expiresAt.None? || now < p.expiresAt.value
  }

  /** The count clause: no limit, or fewer views than the limit. */
  predicate ViewsOk(p: Paste)
  {
    p.maxViews.None? || p.currentViews < p.maxViews.value
  }

  predicate IsAccessible(p: Paste, now: int)
  {
    TimeOk(p, now) && ViewsOk(p)
  }

  /** The nullable fields a `{ field: { $eq: null } }` condition can test. */
  datatype NullableField = ExpiresAtField | MaxViewsField

  /** The fragment of MongoDB's query language the guard uses. */
  datatype Cond =
    | IdEq(id: Id)                  // { _id: id }
    | IsNull(field: NullableField)  // { field: { $eq: null } }
    | ExpiresAtGt(at: int)          // { expiresAt: { $gt: at } }
    | ViewsBelowLimit               // { $expr: { $lt: ["$currentViews", "$maxViews"] } }
    | Or(alts: seq<Cond>)           // { $or: [...] }
    | And(parts: seq<Cond>)         // { $and: [...] }, and the implicit AND of a query's keys

  /**
   Whether the document stored under `key` matches `c`. A `$gt` on a null date
   does not match; `$lt` against a null `maxViews` is false, since null sorts
   below every number.
   */
  predicate Matches(c: Cond, key: Id, d: Paste)
  {
    match c
    case IdEq(id) => key == id
    case IsNull(ExpiresAtField) => d.expiresAt.None?
    case IsNull(MaxViewsField) => d.maxViews.None?
    case ExpiresAtGt(at) => d.expiresAt.Some? && d.expiresAt.value > at
    case ViewsBelowLimit => d.maxViews.Some? && d.currentViews < d.maxViews.value
    case Or(alts) => exists i | 0 <= i < |alts| :: Matches(alts[i], key, d)
    case And(parts) => forall i | 0 <= i < |parts| :: Matches(parts[i], key, d)
  }

  /** The filter of server/index.js: the id, and an explicit `$and` of two complete `$or` groups. */
  function GuardFilter(id: Id, now: int): Cond
  {
    And([
      IdEq(id),
      And([
        Or([IsNull(ExpiresAtField), ExpiresAtGt(now)]),
        Or([IsNull(MaxViewsField), ViewsBelowLimit])
      ])
    ])
  }

  /** The query matches a document exactly when its key is the requested id and the policy admits it. */
  lemma GuardSelectsAccessible(id: Id, now: int, key: Id, d: Paste)
    ensures Matches(GuardFilter(id, now), key, d) <==> key == id && IsAccessible(d, now)
  {
    var time := Or([IsNull(ExpiresAtField), ExpiresAtGt(now)]);
    var count := Or([IsNull(MaxViewsField), ViewsBelowLimit]);
    var clauses := And([time, count]);
    assert Matches(time, key, d) <==> TimeOk(d, now) by {
      assert time.alts[0] == IsNull(ExpiresAtField) && time.alts[1] == ExpiresAtGt(now);
    }
    assert Matches(count, key, d) <==> ViewsOk(d) by {
      assert count.alts[0] == IsNull(MaxViewsField) && count.alts[1] == ViewsBelowLimit;
    }
    assert Matches(clauses, key, d) <==> Matches(time, key, d) && Matches(count, key, d) by {
      assert clauses.parts[0] == time && clauses.parts[1] == count;
    }
    var whole := GuardFilter(id, now);
    assert Matches(whole, key, d) <==> key == id && Matches(clauses, key, d) by {
      assert whole.parts[0] == IdEq(id) && whole.parts[1] == clauses;
    }
  }

  /** Expiry is strict: at the instant `expiresAt` the time clause already fails. */
  lemma ExpiryIsStrict(p: Paste, t: int)
    requires p.expiresAt.Some?
    ensures TimeOk(p, t) <==> t < p.expiresAt.value
    ensures !IsAccessible(p, p.expiresAt.value)
  {
  }

  /** A paste without `expiresAt` passes the time clause at every instant. */
  lemma NoExpiryAlwaysInTime(p: Paste, t: int)
    requires p.expiresAt.None?
    ensures TimeOk(p, t)
  {
  }

  /** Time moving forward never makes an inaccessible paste accessible. */
  lemma LaterIsNoMoreAccessible(p: Paste, t: int, t': int)
    requires t <= t' && !IsAccessible(p, t)
    ensures !IsAccessible(p, t')
  {
  }
}
