/**
  The chore record of App.tsx and the three list updates the controller
  hands to `setChores`: append (`[...prev, newChore]`), delete by id
  (`prev.filter(c => c.id !== id)`) and touch by id (`prev.map(...)`
  overlaying the two fields the server recomputed).
 */
module Chores {
  import opened Wrappers

  /** A chore as the server sends it; timestamps are the ISO strings of the transport. */
  datatype Chore = Chore(
    id: string,
    name: string,
    description: Option<string>,
    frequency: int,
    dueDate: string,
    createdDate: string,
    updatedDate: string)

  /** The body of a touch reply: the two fields the server recomputed. */
  datatype TouchReply = TouchReply(dueDate: string, updatedDate: string)

  /** The fields a touch must not change agree. */
  predicate SameIdentity(a: Chore, b: Chore) {
    a.id == b.id && a.name == b.name && a.description == b.description
    && a.frequency == b.frequency && a.createdDate == b.createdDate
  }

  /** `[...prev, newChore]`: the old list, then the new chore at the end. */
  function Appended(chores: seq<Chore>, c: Chore): (r: seq<Chore>)
    ensures |r| == |chores| + 1
    ensures r[..|chores|] == chores && r[|chores|] == c
  {
    chores + [c]
  }

  /** How many entries of the list carry `id`. */
  function CountId(chores: seq<Chore>, id: string): (n: nat)
    ensures n <= |chores|
    ensures n == 0 <==> forall c :: c in chores ==> c.id != id
  {
    if chores == [] then 0
    else (if chores[0].id == id then 1 else 0) + CountId(chores[1..], id)
  }

  /** `a` is `b` with some entries left out, the rest in the same order. */
  predicate IsSubsequence(a: seq<Chore>, b: seq<Chore>)
    decreases |b|
  {
    if a == [] then true
    else if b == [] then false
    else (a[0] == b[0] && IsSubsequence(a[1..], b[1..])) || IsSubsequence(a, b[1..])
  }

  /**
    `prev.filter(c => c.id !== id)`: exactly the entries with another id,
    in their original order, and nothing with `id`.
   */
  function RemoveId(chores: seq<Chore>, id: string): (r: seq<Chore>)
    ensures forall c :: c in r <==> c in chores && c.id != id
    ensures |r| == |chores| - CountId(chores, id)
    ensures IsSubsequence(r, chores)
  {
    if chores == [] then []
    else if chores[0].id == id then RemoveId(chores[1..], id)
    else [chores[0]] + RemoveId(chores[1..], id)
  }

  /** One entry of `prev.map(...)`: `{ ...c, dueDate, updatedDate }`. */
  function Overlay(c: Chore, reply: TouchReply): Chore {
    c.(dueDate := reply.dueDate, updatedDate := reply.updatedDate)
  }

  /**
    `prev.map(c => c.id === id ? { ...c, dueDate, updatedDate } : c)`: the
    same length and order; a matching entry takes the reply's due and update
    dates and keeps every other field; any other entry is left as it was.
   */
  function TouchId(chores: seq<Chore>, id: string, reply: TouchReply): (r: seq<Chore>)
    ensures |r| == |chores|
    ensures forall i :: 0 <= i < |chores| && chores[i].id != id ==> r[i] == chores[i]
    ensures forall i :: 0 <= i < |chores| && chores[i].id == id ==>
              SameIdentity(r[i], chores[i]) && r[i].dueDate == reply.dueDate && r[i].updatedDate == reply.updatedDate
  {
    if chores == [] then []
    else [if chores[0].id == id then Overlay(chores[0], reply) else chores[0]] + TouchId(chores[1..], id, reply)
  }

  /** Removing from a joined list removes from each part. */
  lemma {:induction false} RemoveIdConcat(a: seq<Chore>, b: seq<Chore>, id: string)
    ensures RemoveId(a + b, id) == RemoveId(a, id) + RemoveId(b, id)
    decreases |a|
  {
    if a == [] {
      assert a + b == b;
    } else {
      assert (a + b)[1..] == a[1..] + b;
      RemoveIdConcat(a[1..], b, id);
    }
  }

  /** A list with no entry carrying `id` is left as it is. */
  lemma {:induction false} RemoveIdAbsent(chores: seq<Chore>, id: string)
    requires forall c :: c in chores ==> c.id != id
    ensures RemoveId(chores, id) == chores
    decreases |chores|
  {
    if chores != [] {
      assert chores[0] in chores;
      RemoveIdAbsent(chores[1..], id);
    }
  }

  /** Deleting twice by the same id is deleting once. */
  lemma RemoveIdIdempotent(chores: seq<Chore>, id: string)
    ensures RemoveId(RemoveId(chores, id), id) == RemoveId(chores, id)
  {
    RemoveIdAbsent(RemoveId(chores, id), id);
  }

  /** Touching twice with the same reply is touching once. */
  lemma {:induction false} TouchIdIdempotent(chores: seq<Chore>, id: string, reply: TouchReply)
    ensures TouchId(TouchId(chores, id, reply), id, reply) == TouchId(chores, id, reply)
    decreases |chores|
  {
    if chores != [] {
      TouchIdIdempotent(chores[1..], id, reply);
    }
  }

  /**
    A delete and a touch, applied one after the other in either order, give
    the same list; in particular touching a deleted id changes nothing.
   */
  lemma {:induction false} RemoveTouchCommute(chores: seq<Chore>, removed: string, touched: string, reply: TouchReply)
    ensures RemoveId(TouchId(chores, touched, reply), removed) == TouchId(RemoveId(chores, removed), touched, reply)
    decreases |chores|
  {
    if chores != [] {
      RemoveTouchCommute(chores[1..], removed, touched, reply);
    }
  }

  /** Touching an id after deleting it changes nothing. */
  lemma TouchAfterRemove(chores: seq<Chore>, id: string, reply: TouchReply)
    ensures TouchId(RemoveId(chores, id), id, reply) == RemoveId(chores, id)
  {
    TouchIdAbsent(RemoveId(chores, id), id, reply);
  }

  /** A touch for an id no entry carries is the identity. */
  lemma {:induction false} TouchIdAbsent(chores: seq<Chore>, id: string, reply: TouchReply)
    requires forall c :: c in chores ==> c.id != id
    ensures TouchId(chores, id, reply) == chores
    decreases |chores|
  {
    if chores != [] {
      assert chores[0] in chores;
      TouchIdAbsent(chores[1..], id, reply);
    }
  }
}
