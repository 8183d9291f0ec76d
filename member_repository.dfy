/**
 * The repository contract of the hello-spring member service
 * (`hello.hellospring.repository.MemberRepository`): save, find by id,
 * find by name and find all, over a store that maps ids to members.
 */
module HelloSpringRepository {
  import opened Wrappers

  /** A member record; `id` is `None` (a `null` Long) until the repository assigns one. */
  datatype Member = Member(id: Option<int>, name: string)

  /** Every stored member carries the id it is stored under. */
  ghost predicate Keyed(store: map<int, Member>)
  {
    forall k :: k in store ==> store[k].id == Some(k)
  }

  /** Some stored member has exactly this name. */
  ghost predicate HasName(store: map<int, Member>, name: string)
  {
    exists k :: k in store && store[k].name == name
  }

  /** The name of a stored member is taken. */
  lemma StoredNameIsTaken(store: map<int, Member>, id: int)
    requires id in store
    ensures HasName(store, store[id].name)
  {
  }

  /** No two stored members share a name: the service's business rule. */
  ghost predicate DistinctNames(store: map<int, Member>)
  {
    forall j, k :: j in store && k in store && j != k ==> store[j].name != store[k].name
  }

  /**
   * A repository. Callers rely only on the contracts below; the body of
   * `Save` draws ids from a counter, which is one way of meeting the
   * contract "the saved member gets an id no stored member has".
   */
  class MemberRepository {
    var store: map<int, Member>
    var sequence: int

    ghost predicate Valid()
      reads this
    {
      Keyed(store) && forall k :: k in store ==> k <= sequence
    }

    constructor ()
      ensures Valid()
      ensures store == map[]
    {
      store := map[];
      sequence := 0;
    }

    /** Stores `member` under a new id and returns it carrying that id. */
    method Save(member: Member) returns (saved: Member)
      requires Valid()
      modifies this
      ensures Valid()
      ensures saved.id.Some? && saved.id.value !in old(store)
      ensures saved == member.(id := saved.id)
      ensures store == old(store)[saved.id.value := saved]
    {
      sequence := sequence + 1;
      saved := member.(id := Some(sequence));
      store := store[sequence := saved];
    }

    /** The member stored under `id`, or empty. */
    method FindById(id: int) returns (found: Option<Member>)
      requires Valid()
      ensures found.Some? <==> id in store
      ensures found.Some? ==> found.value == store[id] && found.value.id == Some(id)
    {
      found := if id in store then Some(store[id]) else None;
    }

    /** Some stored member with exactly this name, or empty when there is none. */
    method FindByName(name: string) returns (found: Option<Member>)
      ensures found.Some? <==> HasName(store, name)
      ensures found.Some? ==> found.value.name == name && found.value in store.Values
    {
      var rest := store.Keys;
      while rest != {}
        invariant rest <= store.Keys
        invariant forall k :: k in store && k !in rest ==> store[k].name != name
        decreases rest
      {
        assert exists k :: k in rest by {
          if forall k :: k !in rest { assert false; }
        }
        var k :| k in rest;
        if store[k].name == name {
          return Some(store[k]);
        }
        rest := rest - {k};
      }
      return None;
    }

    /** Every stored member, each exactly once, in no particular order. */
    method FindAll() returns (members: seq<Member>)
      requires Valid()
      ensures |members| == |store|
      ensures forall m :: m in members <==> m in store.Values
      ensures forall i, j :: 0 <= i < j < |members| ==> members[i] != members[j]
    {
      members := [];
      var rest := store.Keys;
      ghost var seen: set<int> := {};
      while rest != {}
        invariant rest <= store.Keys && seen == store.Keys - rest
        invariant |members| == |seen|
        invariant forall i :: 0 <= i < |members| ==>
          members[i].id.Some? && members[i].id.value in seen && store[members[i].id.value] == members[i]
        invariant forall k :: k in seen ==> store[k] in members
        invariant forall i, j :: 0 <= i < j < |members| ==> members[i] != members[j]
        decreases rest
      {
        assert exists k :: k in rest by {
          if forall k :: k !in rest { assert false; }
        }
        var k :| k in rest;
        members := members + [store[k]];
        rest := rest - {k};
        seen := seen + {k};
      }
      forall m | m in store.Values
        ensures m in members
      {
        assert exists k :: k in store && store[k] == m by {
          if forall k :: k in store ==> store[k] != m { assert false; }
        }
        var k :| k in store && store[k] == m;
      }
      forall m | m in members
        ensures m in store.Values
      {
        var i :| 0 <= i < |members| && members[i] == m;
        assert store[m.id.value] == m;
      }
    }
  }
}
