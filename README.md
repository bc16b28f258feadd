# Behavior tree archetype library

A model of `BehaviorTreeLibrary`, the repository of behavior tree
archetypes in the FXGL AI package. An archetype is a template tree that never
runs; callers are meant to receive clones of it. The library holds one
table, `repository`, from tree reference (typically a resource path) to
archetype. That table is changed in place by `registerArchetypeTree` and read
by `hasArchetypeTree`.

In this version of the code, `retrieveArchetypeTree` always throws
`UnsupportedOperationException`. Its lazy load-on-miss body is commented out.
So `createBehaviorTree` (both overloads) and `createRootTask`, which
retrieve the archetype before cloning it, always fail the same way.

Files:

- `Wrappers.dfy`: `Option` (a Java reference that may be null), `Outcome` (a
  void call that may throw) and `Result` (a call that returns a value or
  throws).
- `BehaviorTreeLibrary.dfy`, module `BehaviorTreeUtils`: the exceptions with
  their messages, the function `Register` that states what one registration
  does to the table, two lemmas relating pairs of registrations, and the class
  `BehaviorTreeLibrary` with a `map<string, Tree>` field. Each method of the
  class models one Java method. `Tree` is a type parameter of the class:
  nothing is assumed about a tree. The tree operations the library calls
  (`cloneTask`, `getChild(0)`, `setEntity`) are function parameters of the
  create methods. The create methods keep the Java chain (retrieve, then
  clone, then bind), and their contracts prove that the chain always stops
  at the retrieve step.
- `RegistrationHistory.dfy`: what a whole sequence of registrations does.
  The entry for a reference is the archetype of the last accepted
  registration under it. A reference is known exactly when it was known
  before or some accepted registration named it. Starting from a new
  library, a reference never registered stays unknown.

The code has no loader: `retrieveArchetypeTree` throws unconditionally, so
there are no load states, no retry after a failed load, and no create call
ever returns a clone. The table is a plain `HashMap` filled only by
`registerArchetypeTree`.

## Model

| member | source | states |
|---|---|---|
| `BehaviorTreeUtils.BehaviorTreeLibrary.constructor` | BattleTanks/src/main/java/com/almasb/fxgl/ai/btree/utils/BehaviorTreeLibrary.java:39-47 | A new library has an empty repository, so no reference has an entry. |
| `BehaviorTreeUtils.Register` | BattleTanks/src/main/java/com/almasb/fxgl/ai/btree/utils/BehaviorTreeLibrary.java:118-123 | A null archetype fails with IllegalArgumentException ("The registered archetype must not be null.") and leaves the repository as it was. Otherwise the call succeeds and the entry for the reference is exactly the given archetype. Every other reference keeps its entry or its absence. The key set grows by at most the registered reference. |
| `BehaviorTreeUtils.BehaviorTreeLibrary.RegisterArchetypeTree` | BattleTanks/src/main/java/com/almasb/fxgl/ai/btree/utils/BehaviorTreeLibrary.java:118-123 | The outcome and the new repository are those of `Register` applied to the old repository. The method changes nothing but this library's repository. |
| `BehaviorTreeUtils.RegisterLaterWins` | BattleTanks/src/main/java/com/almasb/fxgl/ai/btree/utils/BehaviorTreeLibrary.java:110-122 | Registering two archetypes under one reference leaves the same repository as registering only the second: an existing archetype is replaced. |
| `BehaviorTreeUtils.RegisterDistinctCommute` | BattleTanks/src/main/java/com/almasb/fxgl/ai/btree/utils/BehaviorTreeLibrary.java:122 | Registrations under two different references give the same repository in either order. This holds also when one of them is refused. |
| `BehaviorTreeUtils.BehaviorTreeLibrary.HasArchetypeTree` | BattleTanks/src/main/java/com/almasb/fxgl/ai/btree/utils/BehaviorTreeLibrary.java:131-133 | The answer is true exactly when the repository has an entry for the reference. The method has no modifies clause, so it is a pure query. |
| `BehaviorTreeUtils.BehaviorTreeLibrary.RetrieveArchetypeTree` | BattleTanks/src/main/java/com/almasb/fxgl/ai/btree/utils/BehaviorTreeLibrary.java:98-108 | Every call fails with UnsupportedOperationException ("Archetype retrieve not supported!"), whatever the repository holds. The repository is left as it was. |
| `BehaviorTreeUtils.BehaviorTreeLibrary.CreateRootTask` | BattleTanks/src/main/java/com/almasb/fxgl/ai/btree/utils/BehaviorTreeLibrary.java:57-60 | Every call fails with the retrieve error, whatever `getChild` and `cloneTask` are. The repository is left as it was. |
| `BehaviorTreeUtils.BehaviorTreeLibrary.CreateBehaviorTreeWithBlackboard` | BattleTanks/src/main/java/com/almasb/fxgl/ai/btree/utils/BehaviorTreeLibrary.java:83-88 | Every call fails with the retrieve error, whatever the blackboard, the clone operation and `setEntity`. The repository is left as it was. |
| `BehaviorTreeUtils.BehaviorTreeLibrary.CreateBehaviorTree` | BattleTanks/src/main/java/com/almasb/fxgl/ai/btree/utils/BehaviorTreeLibrary.java:70-72 | The overload without a blackboard (it passes null) fails with the same retrieve error. |
| `BehaviorTreeUtils.RegistrationScenario` | BattleTanks/src/main/java/com/almasb/fxgl/ai/btree/utils/BehaviorTreeLibrary.java:84-133 | On one new library: the reference is unknown at first. After two registrations the reference is known and stores the second archetype. A later null registration is refused and leaves that entry in place. Creating a tree for the registered reference still fails with the retrieve error. |
| `RegistrationHistory.RegisterAll` | BattleTanks/src/main/java/com/almasb/fxgl/ai/btree/utils/BehaviorTreeLibrary.java:122 | No sequence of registrations drops a reference: the library has no removal. |
| `RegistrationHistory.LastRegisteredIsLastAccepted` | BattleTanks/src/main/java/com/almasb/fxgl/ai/btree/utils/BehaviorTreeLibrary.java:110-122 | Take the last call in a sequence that registers a non-null archetype under a reference. `LastRegistered` returns exactly that call's archetype. |
| `RegistrationHistory.LastRegisteredNone` | BattleTanks/src/main/java/com/almasb/fxgl/ai/btree/utils/BehaviorTreeLibrary.java:118-122 | `LastRegistered` finds nothing exactly when no call registers a non-null archetype under the reference. |
| `RegistrationHistory.RegisterAllLookup` | BattleTanks/src/main/java/com/almasb/fxgl/ai/btree/utils/BehaviorTreeLibrary.java:110-122 | After a sequence of registrations, the entry for a reference is the last accepted archetype under it. If there is none, the entry is what it was before. |
| `RegistrationHistory.LastAcceptedWins` | BattleTanks/src/main/java/com/almasb/fxgl/ai/btree/utils/BehaviorTreeLibrary.java:110-122 | After a sequence of registrations, the entry for a reference is that of the last accepted call under it. Earlier calls and refused calls do not matter. |
| `RegistrationHistory.UntouchedReferenceKept` | BattleTanks/src/main/java/com/almasb/fxgl/ai/btree/utils/BehaviorTreeLibrary.java:118-122 | A reference that no accepted call names keeps its entry, or stays absent. |
| `RegistrationHistory.RegisterAllContains` | BattleTanks/src/main/java/com/almasb/fxgl/ai/btree/utils/BehaviorTreeLibrary.java:118-133 | After a sequence of registrations, a reference is known exactly when it was known before or some accepted call registered under it. |
| `RegistrationHistory.FreshLibraryContains` | BattleTanks/src/main/java/com/almasb/fxgl/ai/btree/utils/BehaviorTreeLibrary.java:44-47 | Start from a new library's empty repository. A reference is known exactly when some accepted call registered under it, so a reference never registered stays unknown. |

## Left out

- The `parser` field and the constructor's parse debug level: the parser is used only in commented-out code.
- Loading an archetype on a miss (parse a resource, then register it): this is commented-out code. The live retrieve throws, so there is no load, caching or retry behaviour to model.
- Single-flight loading and concurrency: the table is an unsynchronised `HashMap` with no locking.
- Deep cloning of a tree (`cloneTask`), `getChild(0)` and `setEntity`: these belong to the task classes, which are not part of this model. They are uninterpreted function parameters, and with retrieval switched off they are never reached. Their own failures (`TaskCloneException`, a missing child) are therefore not modelled.
- In-place binding by `setEntity`: it is modelled as a function that returns the bound tree. The call is unreachable either way.
- Java generics and unchecked casts: every tree has the one type parameter `Tree`, and the root task has the method's type parameter `Task`.
- A null tree reference: Java's `HashMap` accepts a null key, but a Dafny `string` cannot be null. References are always strings here.
- Subclasses: `repository` and `retrieveArchetypeTree` are protected members of a public, non-final class. A subclass that overrides `retrieveArchetypeTree` would make the create methods succeed through dynamic dispatch, and a subclass may write to the table directly. Neither is modelled: the contracts describe `BehaviorTreeLibrary` itself.
