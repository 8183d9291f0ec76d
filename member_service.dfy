/**
 * The hello-spring member service (`hello.hellospring.service.MemberService`):
 * registration with duplicate-name validation, and two read-only lookups,
 * all delegated to an injected `MemberRepository`.
 */
module HelloSpringService {
  import opened Wrappers
  import opened HelloSpringRepository

  /** The message of the exception `join` throws for a name already registered. */
  const DuplicateMemberMessage: string := "이미 존재하는 회원입니다."

  /** Java's `IllegalStateException`, with its message. */
  datatype ServiceError = IllegalState(message: string)

  class MemberService {
    const repository: MemberRepository

    constructor (repository: MemberRepository)
      ensures this.repository == repository
    {
      this.repository := repository;
    }

    /**
     * Registers `member`: rejects a name some stored member already has,
     * otherwise saves it and returns the id the repository assigned.
     */
    method Join(member: Member) returns (result: Result<int, ServiceError>)
      requires repository.Valid()
      modifies repository
      ensures repository.Valid()
      ensures result.Failure? <==> HasName(old(repository.store), member.name)
      ensures result.Failure? ==>
        result.error == IllegalState(DuplicateMemberMessage) && unchanged(repository)
      ensures result.Success? ==>
        && result.value !in old(repository.store)
        && repository.store == old(repository.store)[result.value := member.(id := Some(result.value))]
        && |repository.store| == |old(repository.store)| + 1
      ensures result.Success? ==>
        result.value in repository.store && repository.store[result.value].name == member.name
      ensures DistinctNames(old(repository.store)) ==> DistinctNames(repository.store)
    {
      var checked := ValidateDuplicateMember(member);
      if checked.Fail? {
        return Failure(checked.error);
      }
      var saved := repository.Save(member);
      return Success(saved.id.value);
    }

    /** Fails with the duplicate-member error exactly when the name is taken. */
    method ValidateDuplicateMember(member: Member) returns (outcome: Outcome<ServiceError>)
      ensures outcome.Fail? <==> HasName(repository.store, member.name)
      ensures outcome.Fail? ==> outcome.error == IllegalState(DuplicateMemberMessage)
    {
      var existing := repository.FindByName(member.name);
      outcome := if existing.Some? then Fail(IllegalState(DuplicateMemberMessage)) else Pass;
    }

    /** Every registered member, as the repository lists them. */
    method FindMembers() returns (members: seq<Member>)
      requires repository.Valid()
      ensures |members| == |repository.store|
      ensures forall m :: m in members <==> m in repository.store.Values
      ensures forall i, j :: 0 <= i < j < |members| ==> members[i] != members[j]
    {
      members := repository.FindAll();
    }

    /** The member registered under `memberId`, or empty: absence is not an error. */
    method FindOne(memberId: int) returns (found: Option<Member>)
      requires repository.Valid()
      ensures found.Some? <==> memberId in repository.store
      ensures found.Some? ==> found.value == repository.store[memberId] && found.value.id == Some(memberId)
    {
      found := repository.FindById(memberId);
    }
  }

  /** A successful join is followed by a lookup of the returned id that finds the same name. */
  method JoinThenFindOne(service: MemberService, member: Member)
    returns (joined: Result<int, ServiceError>, found: Option<Member>)
    requires service.repository.Valid()
    modifies service.repository
    ensures joined.Success? <==> !HasName(old(service.repository.store), member.name)
    ensures joined.Success? ==> found.Some? && found.value.name == member.name
    ensures joined.Success? ==> found.value.id == Some(joined.value)
  {
    joined := service.Join(member);
    found := None;
    if joined.Success? {
      found := service.FindOne(joined.value);
    }
  }

  /** On a fresh repository the service lists no members. */
  method EmptyStoreHasNoMembers() returns (members: seq<Member>)
    ensures members == []
  {
    var repository := new MemberRepository();
    var service := new MemberService(repository);
    members := service.FindMembers();
  }

  /** Joining a second member with a taken name fails and leaves one member stored. */
  method DuplicateNameRejected(name: string)
    returns (first: Result<int, ServiceError>, second: Result<int, ServiceError>, count: nat)
    ensures first.Success?
    ensures second == Failure(IllegalState(DuplicateMemberMessage))
    ensures count == 1
  {
    var repository := new MemberRepository();
    var service := new MemberService(repository);
    first := service.Join(Member(None, name));
    StoredNameIsTaken(repository.store, first.value);
    second := service.Join(Member(None, name));
    var members := service.FindMembers();
    count := |members|;
  }

  /** Three members with different names all join, under three different ids, names kept distinct. */
  method ThreeJoinsGetDistinctIds(a: string, b: string, c: string)
    returns (r1: Result<int, ServiceError>, r2: Result<int, ServiceError>, r3: Result<int, ServiceError>,
             ids: seq<int>, members: seq<Member>)
    requires a != b && b != c && a != c
    ensures r1.Success? && r2.Success? && r3.Success?
    ensures ids == [r1.value, r2.value, r3.value]
    ensures |ids| == 3 && ids[0] != ids[1] && ids[1] != ids[2] && ids[0] != ids[2]
    ensures |members| == 3
    ensures forall i, j :: 0 <= i < j < |members| ==> members[i].name != members[j].name
  {
    var repository := new MemberRepository();
    var service := new MemberService(repository);
    r1 := service.Join(Member(None, a));
    r2 := service.Join(Member(None, b));
    r3 := service.Join(Member(None, c));
    ids := [r1.value, r2.value, r3.value];
    members := service.FindMembers();
    ListedNamesDistinct(repository.store, members);
  }

  /** Looking up an id nobody was given returns empty rather than failing. */
  method AbsentIdFindsNothing() returns (found: Option<Member>)
    ensures found == None
  {
    var repository := new MemberRepository();
    var service := new MemberService(repository);
    found := service.FindOne(999);
  }

  /** Listing a store whose names are distinct yields members with distinct names. */
  lemma ListedNamesDistinct(store: map<int, Member>, members: seq<Member>)
    requires DistinctNames(store)
    requires forall m :: m in members ==> m in store.Values
    requires forall i, j :: 0 <= i < j < |members| ==> members[i] != members[j]
    ensures forall i, j :: 0 <= i < j < |members| ==> members[i].name != members[j].name
  {
    forall i, j | 0 <= i < j < |members|
      ensures members[i].name != members[j].name
    {
      assert members[i] in store.Values && members[j] in store.Values;
      assert exists k :: k in store && store[k] == members[i] by {
        if forall k :: k in store ==> store[k] != members[i] { assert false; }
      }
      assert exists k :: k in store && store[k] == members[j] by {
        if forall k :: k in store ==> store[k] != members[j] { assert false; }
      }
      var ki :| ki in store && store[ki] == members[i];
      var kj :| kj in store && store[kj] == members[j];
    }
  }
}
