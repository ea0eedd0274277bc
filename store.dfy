/**
 The paste collection and its one mutating read: `findOneAndUpdate` with the
 guard filter, `{ $inc: { currentViews: 1 } }` and `{ new: true }`, as run by
 both GET routes of server/index.js. The store is sequential here; MongoDB's
 per-document atomicity is what makes a single call behave as one step.
 */
module Store {
  import opened Wrappers
  import opened PasteSchema
  import opened Guard

  /** `$inc: { currentViews: 1 }` */
  function Increment(p: Paste): Paste
  {
    p.(currentViews := p.currentViews + 1)
  }

  /** The outcome of one guarded fetch: the post-increment document, if any, and the collection afterwards. */
  datatype Fetch = Fetch(found: Option<Paste>, after: map<Id, Paste>)

  /**
   One guarded fetch-and-consume on the collection `m`, evaluated with the
   query of server/index.js. Its contract restates the outcome in terms of the
   policy: it succeeds exactly on an accessible paste, raises only that paste's
   counter by one and returns the new state; otherwise nothing changes.
   */
  function Consume(m: map<Id, Paste>, id: Id, now: int): (f: Fetch)
    ensures f.found.Some? <==> id in m && IsAccessible(m[id], now)
    ensures f.found.Some? ==> f.after == m[id := Increment(m[id])] && f.found.value == f.after[id]
    ensures f.found.None? ==> f.after == m
  {
    if id !in m then
      Fetch(None, m)
    else
      GuardSelectsAccessible(id, now, id, m[id]);
      if Matches(GuardFilter(id, now), id, m[id]) then
        var updated := Increment(m[id]);
        Fetch(Some(updated), m[id := updated])
      else
        Fetch(None, m)
  }

  class PasteStore {
    var pastes: map<Id, Paste>
    var nextId: Id

    /** Every stored id was handed out before, so `nextId` is always fresh. */
    ghost predicate Valid()
      reads this
    {
      forall id :: id in pastes ==> id < nextId
    }

    constructor ()
      ensures Valid() && pastes == map[]
    {
      pastes := map[];
      nextId := 0;
    }

    /** `Paste.create`: stores `p` under an id not in use and returns that id. */
    method Insert(p: Paste) returns (id: Id)
      requires Valid()
      modifies this
      ensures Valid()
      ensures id !in old(pastes) && pastes == old(pastes)[id := p]
    {
      id := nextId;
      pastes := pastes[id := p];
      nextId := nextId + 1;
    }

    /**
     `Paste.findOneAndUpdate(GuardFilter(id, now), { $inc: { currentViews: 1 } }, { new: true })`:
     the document with `id` is consulted, and incremented only if the filter matches.
     */
    method FindOneAndUpdate(id: Id, now: int) returns (found: Option<Paste>)
      requires Valid()
      modifies this`pastes
      ensures Valid()
      ensures Fetch(found, pastes) == Consume(old(pastes), id, now)
      ensures found.Some? <==> id in old(pastes) && IsAccessible(old(pastes)[id], now)
      ensures found.Some? ==> pastes == old(pastes)[id := Increment(old(pastes)[id])] && found.value == pastes[id]
      ensures found.None? ==> pastes == old(pastes)
    {
      if id in pastes && Matches(GuardFilter(id, now), id, pastes[id]) {
        var updated := Increment(pastes[id]);
        pastes := pastes[id := updated];
        found := Some(updated);
      } else {
        found := None;
      }
    }
  }
}
