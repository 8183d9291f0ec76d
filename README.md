# Member registration, modelled in Dafny

This project models the member-registration core of a Spring tutorial repository. It has two parts.

- **hello-spring.** `MemberService` registers members through an injected `MemberRepository`.
  Its one business rule is that a name may not be registered twice: `join` looks the name up with
  `findByName`, throws `IllegalStateException("이미 존재하는 회원입니다.")` when it is taken, and otherwise
  calls `save` and returns the id the repository assigned. `findMembers` and `findOne` delegate to
  `findAll` and `findById`.
- **core.** `MemoryMemberRepository` keeps one `static` `HashMap<Long, Member>`. `save` puts a member
  under its own, caller-supplied id. `findById` returns the mapped member, or `null`.

Files:

- `wrappers.dfy`: `Option` stands for `Optional` and `null`, `Result` for a value-or-exception return,
  and `Outcome` for a `void` method that may throw.
- `member_repository.dfy` (module `HelloSpringRepository`): the `Member` record (id, name) and the
  repository contract as the class `MemberRepository`, which holds an id→member map. `Valid()` says
  every stored member carries the id it is stored under. `Save` promises a new id no stored member
  has. The ghost predicates `HasName` and `DistinctNames` state "this name is taken" and "no two
  stored members share a name".
- `member_service.dfy` (module `HelloSpringService`): `MemberService`. `Join` returns a `Result`
  instead of throwing. The module also has client methods for the scenarios the service should
  support: round trip, empty store, duplicate rejection, three joins, and an absent id.
- `memory_member_repository.dfy` (module `CoreMember`): the `core` repository. The `static` map is one
  `MemberStore` object. Each `MemoryMemberRepository` instance holds a reference to a `MemberStore`,
  and instances built over the same `MemberStore` share its entries. A `Long` id may be `null` (`None`), because a `HashMap` accepts a
  null key.

The uniqueness invariant lives with the service, not the repository, because the data layer itself
permits equal names. `Join` preserves `DistinctNames` whether it succeeds or is rejected. A rejected
`Join` leaves the repository untouched, because the duplicate check runs before `save`.

Two modelling choices:

- The duplicate-member message is kept exactly as written in `MemberService`: "이미 존재하는 회원입니다.".
- `Save` assigns a fresh id even when the member already carries one. The repository interface does not
  say that an existing id is kept, and `join` relies only on the id `save` gives the member.

## Model

| member | source | states |
|---|---|---|
| HelloSpringRepository.MemberRepository.Save | spring/hello-spring/src/main/java/hello/hellospring/repository/MemberRepository.java:10 | the returned member is the given one with a new id that no stored member had; the store gains exactly that entry and nothing else changes |
| HelloSpringRepository.MemberRepository.FindById | spring/hello-spring/src/main/java/hello/hellospring/repository/MemberRepository.java:11 | present exactly when a member is stored under the id, and then it is that member and carries that id |
| HelloSpringRepository.MemberRepository.FindByName | spring/hello-spring/src/main/java/hello/hellospring/repository/MemberRepository.java:12 | present exactly when some stored member has the name; what it returns is a stored member with that name |
| HelloSpringRepository.MemberRepository.FindAll | spring/hello-spring/src/main/java/hello/hellospring/repository/MemberRepository.java:13 | lists every stored member and nothing else, each exactly once (length equals the store's size) |
| HelloSpringService.MemberService.constructor | spring/hello-spring/src/main/java/hello/hellospring/service/MemberService.java:17-23 | the service uses the repository it is given |
| HelloSpringService.MemberService.Join | spring/hello-spring/src/main/java/hello/hellospring/service/MemberService.java:26-37 | fails exactly when the name is already stored, with IllegalState and the fixed message, leaving the repository unchanged; otherwise stores the member under a new id, returns that id, grows the store by one, makes the id find a member with the same name; distinct names stay distinct in both cases |
| HelloSpringService.MemberService.ValidateDuplicateMember | spring/hello-spring/src/main/java/hello/hellospring/service/MemberService.java:39-45 | fails exactly when some stored member has the name, and then with IllegalState and the fixed message |
| HelloSpringService.MemberService.FindMembers | spring/hello-spring/src/main/java/hello/hellospring/service/MemberService.java:47-49 | the same list findAll promises: every stored member exactly once; changes nothing |
| HelloSpringService.MemberService.FindOne | spring/hello-spring/src/main/java/hello/hellospring/service/MemberService.java:51-53 | the same answer findById promises: empty, not an error, for an id with no member; changes nothing |
| HelloSpringService.JoinThenFindOne | spring/core/src/test/java/hello/hellospring/service/MemberServiceIntegrationTest.java:27-39 | on any repository, a join succeeds exactly when the name is not stored, and then findOne of the returned id finds a member with that id and the joined name |
| HelloSpringService.EmptyStoreHasNoMembers | spring/hello-spring/src/main/java/hello/hellospring/service/MemberService.java:47-49 | findMembers on a fresh repository is empty |
| HelloSpringService.DuplicateNameRejected | spring/hello-spring/src/main/java/hello/hellospring/service/MemberService.java:34-45 | joining the same name twice: the first succeeds, the second fails with IllegalState and the fixed message, and one member remains stored |
| HelloSpringService.ThreeJoinsGetDistinctIds | spring/hello-spring/src/main/java/hello/hellospring/service/MemberService.java:26-37 | three joins with different names all succeed (each result is a success) with three different ids, and the three listed members have pairwise different names |
| HelloSpringService.AbsentIdFindsNothing | spring/hello-spring/src/main/java/hello/hellospring/service/MemberService.java:51-53 | findOne(999) on a repository without that id is empty |
| HelloSpringService.ListedNamesDistinct | spring/hello-spring/src/main/java/hello/hellospring/service/MemberService.java:39-49 | when stored names are distinct, the members listed by findMembers have pairwise different names |
| CoreMember.MemberStore.constructor | spring/core/src/main/java/hello/core/member/MemoryMemberRepository.java:11 | the shared map starts empty |
| CoreMember.MemoryMemberRepository.constructor | spring/core/src/main/java/hello/core/member/MemoryMemberRepository.java:9-11 | a repository instance reads and writes the shared map it is given |
| CoreMember.MemoryMemberRepository.Save | spring/core/src/main/java/hello/core/member/MemoryMemberRepository.java:13-15 | put semantics: the member is found under its own id, replacing any earlier one; the key set becomes old keys plus that id; every other entry is unchanged |
| CoreMember.MemoryMemberRepository.FindById | spring/core/src/main/java/hello/core/member/MemoryMemberRepository.java:17-20 | the stored member when the id is a key, null (None) otherwise; changes nothing |
| CoreMember.SharedStoreRoundTrip | spring/core/src/main/java/hello/core/member/MemoryMemberRepository.java:11-20 | a member saved through one repository instance is returned by findById of its id through another instance |
| CoreMember.SaveReplacesSameId | spring/core/src/main/java/hello/core/member/MemoryMemberRepository.java:13-19 | after saving two members with the same id, findById returns the second, and an id never saved is still absent |
| CoreMember.NeverSavedIsAbsent | spring/core/src/main/java/hello/core/member/MemoryMemberRepository.java:18-19 | findById on a store nothing was saved to returns null (None) for every id |

## Left out

- HelloSpringRepository.MemberRepository.Save: does not promise strictly increasing ids. The concrete hello-spring repository that assigns them is not part of this model. The contract promises only an id no stored member has. The counter in the body is just one way to meet that contract.
- HelloSpringService.ThreeJoinsGetDistinctIds: states that the three ids are distinct, not that they increase, for the same reason.
- Ids in hello-spring are unbounded integers. The 64-bit range of `Long`, and overflow of an id counter, are not modelled.
- A `null` member passed to `join` or to either `save` is not modelled: Java throws NullPointerException at `member.getName()` or `member.getId()`; both `Member` types here are datatypes, which cannot be null.
- A `null` argument to hello-spring's `findById`/`findByName`, and `null` names, are not modelled. The concrete repository's behaviour for them is not shown. In `core`, a `null` id is modelled.
- Aliasing of the `Member` object: in Java, `save` sets the id on the caller's own object, and `join` reads it back. In the model, `Save` returns the stored copy with its id, and `Join` returns that id.
- The model does not force a single store per process. Java's `private static` map means every `new MemoryMemberRepository()` sees every earlier save; here two repositories see each other's saves only when built over the same `MemberStore`, and repositories over different `MemberStore` objects are independent.
- The order of `findAll`'s list is unspecified. The model states which members are listed and that each appears once.
- `@Transactional` and concurrency: concurrent `join` calls could both pass the duplicate check before either saves. Every operation here is sequential.
- Spring dependency injection, component scanning, the web and servlet controllers, logging, and the singleton demo are framework plumbing with no logic of their own.
- `Member` class bodies are not part of this model. Both `Member` types are records of id and name. Other fields of the `core` member, such as a grade, are not modelled.
- The integration test's duplicate case registers two different names ("spring3", "spring4") yet expects an exception. The code rejects only equal names, so that test is not stated as a property.
