/**
 * The in-memory member repository of the `core` module
 * (`hello.core.member.MemoryMemberRepository`): members are put into and
 * read back from one process-wide map keyed by the member's own id.
 */
module CoreMember {
  import opened Wrappers

  /** A Java `Long` reference: `None` is `null`, which a `HashMap` accepts as a key. */
  type MemberId = Option<int>

  /** A member record; its id is supplied by the caller. */
  datatype Member = Member(id: MemberId, name: string)

  /**
   * The `static` map behind every repository instance. One object stands
   * for it, and every `MemoryMemberRepository` holds a reference to it.
   */
  class MemberStore {
    var entries: map<MemberId, Member>

    constructor ()
      ensures entries == map[]
    {
      entries := map[];
    }
  }

  class MemoryMemberRepository {
    const store: MemberStore

    constructor (store: MemberStore)
      ensures this.store == store
    {
      this.store := store;
    }

    /**
     * Puts `member` under its own id, replacing whatever was stored under
     * that id; every other entry stays as it was.
     */
    method Save(member: Member)
      modifies store
      ensures member.id in store.entries && store.entries[member.id] == member
      ensures store.entries.Keys == old(store.entries.Keys) + {member.id}
      ensures forall id :: id in old(store.entries) && id != member.id ==>
        store.entries[id] == old(store.entries[id])
      ensures store.entries == old(store.entries)[member.id := member]
    {
      store.entries := store.entries[member.id := member];
    }

    /** The member stored under `memberId`, or `null` (here `None`) when there is none. */
    method FindById(memberId: MemberId) returns (found: Option<Member>)
      ensures found.Some? <==> memberId in store.entries
      ensures found.Some? ==> found.value == store.entries[memberId]
    {
      found := if memberId in store.entries then Some(store.entries[memberId]) else None;
    }
  }

  /** A member saved through one repository instance is found through another. */
  method SharedStoreRoundTrip(member: Member) returns (found: Option<Member>)
    ensures found == Some(member)
  {
    var store := new MemberStore();
    var saving := new MemoryMemberRepository(store);
    var reading := new MemoryMemberRepository(store);
    saving.Save(member);
    found := reading.FindById(member.id);
  }

  /** A second save under the same id replaces the first member; other ids stay absent. */
  method SaveReplacesSameId(first: Member, second: Member, other: MemberId)
    returns (found: Option<Member>, elsewhere: Option<Member>)
    requires first.id == second.id && other != first.id
    ensures found == Some(second)
    ensures elsewhere == None
  {
    var store := new MemberStore();
    var repository := new MemoryMemberRepository(store);
    repository.Save(first);
    repository.Save(second);
    found := repository.FindById(first.id);
    elsewhere := repository.FindById(other);
  }

  /** On a fresh store a lookup of any id, `null` included, finds nothing. */
  method NeverSavedIsAbsent(memberId: MemberId) returns (found: Option<Member>)
    ensures found == None
  {
    var store := new MemberStore();
    var repository := new MemoryMemberRepository(store);
    found := repository.FindById(memberId);
  }
}
