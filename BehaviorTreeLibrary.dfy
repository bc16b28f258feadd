/** A repository of behavior tree archetypes. Archetypes never run: callers
    are meant to receive clones of them. The library keeps one table from tree
    reference (typically a resource path) to archetype, filled only by
    explicit registration; the retrieval path, and with it every way of
    creating an instance, is switched off and always fails.

    The tree type is a type parameter: nothing is assumed about a tree beyond
    being a value the table can hold. The task operations the library calls
    on a tree (cloning, taking a child, binding the blackboard) are passed in
    as functions, because they belong to the tree classes, which are not part
    of this model. */
module BehaviorTreeUtils {
  import opened Wrappers

  /** The exceptions the library itself throws. */
  datatype LibraryError =
    | IllegalArgument(message: string)
    | UnsupportedOperation(message: string)

  const NullArchetypeMessage := "The registered archetype must not be null."
  const RetrieveNotSupportedMessage := "Archetype retrieve not supported!"

  /** Thrown by registerArchetypeTree for a null archetype. */
  const NullArchetype := IllegalArgument(NullArchetypeMessage)
  /** Thrown by every call of retrieveArchetypeTree. */
  const RetrieveNotSupported := UnsupportedOperation(RetrieveNotSupportedMessage)

  /** The entry for ref, or None where the Java map would answer null. */
  function Lookup<Tree>(repository: map<string, Tree>, ref: string): Option<Tree>
  {
    if ref in repository then Some(repository[ref]) else None
  }

  /** One call of registerArchetypeTree on a repository: the outcome of the
      call and the repository after it. A null archetype is refused and
      changes nothing; otherwise the archetype is stored under ref, replacing
      any earlier one, and no other entry is touched. */
  function Register<Tree>(repository: map<string, Tree>, ref: string, archetype: Option<Tree>)
    : (r: (Outcome<LibraryError>, map<string, Tree>))
    ensures archetype.None? ==> r.0 == Fail(NullArchetype) && r.1 == repository
    ensures archetype.Some? ==> r.0 == Pass && Lookup(r.1, ref) == archetype
    ensures forall other :: other != ref ==> Lookup(r.1, other) == Lookup(repository, other)
    ensures repository.Keys <= r.1.Keys <= repository.Keys + {ref}
  {
    match archetype
    case None => (Fail(NullArchetype), repository)
    case Some(tree) => (Pass, repository[ref := tree])
  }

  /** Registering twice under one reference leaves what the second call
      registered: the later call wins. */
  lemma RegisterLaterWins<Tree>(repository: map<string, Tree>, ref: string, first: Tree, second: Tree)
    ensures Register(Register(repository, ref, Some(first)).1, ref, Some(second)).1
         == Register(repository, ref, Some(second)).1
  {
  }

  /** Registrations under two different references do not interfere: their
      order does not matter. */
  lemma RegisterDistinctCommute<Tree>(repository: map<string, Tree>, a: string, ta: Option<Tree>,
                                       b: string, tb: Option<Tree>)
    requires a != b
    ensures Register(Register(repository, a, ta).1, b, tb).1
         == Register(Register(repository, b, tb).1, a, ta).1
  {
  }

  class BehaviorTreeLibrary<Tree> {
    /** The archetypes, by tree reference. */
    var repository: map<string, Tree>

    /** A library with no archetypes. */
    constructor ()
      ensures repository == map[]
      ensures forall ref :: Lookup(repository, ref) == None
    {
      repository := map[];
    }

    /** Stores archetypeTree under treeReference, replacing an archetype
        already registered there; a null archetype is refused with an
        IllegalArgumentException and the repository is left as it was. */
    method RegisterArchetypeTree(treeReference: string, archetypeTree: Option<Tree>)
      returns (outcome: Outcome<LibraryError>)
      modifies this
      ensures (outcome, repository) == Register(old(repository), treeReference, archetypeTree)
    {
      if archetypeTree.None? {
        return Fail(NullArchetype);
      }
      repository := repository[treeReference := archetypeTree.value];
      outcome := Pass;
    }

    /** Whether an archetype is registered under treeReference. */
    method HasArchetypeTree(treeReference: string) returns (has: bool)
      ensures has <==> Lookup(repository, treeReference).Some?
    {
      has := treeReference in repository;
    }

    /** Retrieval is not supported: every call fails, whatever the repository
        holds, and (having no modifies clause) leaves it as it was. */
    method RetrieveArchetypeTree(treeReference: string) returns (r: Result<Tree, LibraryError>)
      ensures r.Failure? && r.error == RetrieveNotSupported
    {
      r := Failure(RetrieveNotSupported);
    }

    /** Retrieves the archetype, takes its child 0 and clones it. Since
        retrieval fails, so does this, before any child is taken or cloned. */
    method CreateRootTask<Task>(treeReference: string, getChild: (Tree, int) -> Task,
                                cloneTask: Task -> Task)
      returns (r: Result<Task, LibraryError>)
      ensures r.Failure? && r.error == RetrieveNotSupported
    {
      var archetype := RetrieveArchetypeTree(treeReference);
      match archetype
      case Failure(e) =>
        r := Failure(e);
      case Success(tree) =>
        r := Success(cloneTask(getChild(tree, 0)));
    }

    /** Retrieves the archetype, clones it and binds the blackboard (which may
        be null) into the clone. Since retrieval fails, so does this, before
        any clone is made or any blackboard bound. */
    method CreateBehaviorTreeWithBlackboard<B>(treeReference: string, blackboard: Option<B>,
                                               cloneTree: Tree -> Tree,
                                               setEntity: (Tree, Option<B>) -> Tree)
      returns (r: Result<Tree, LibraryError>)
      ensures r.Failure? && r.error == RetrieveNotSupported
    {
      var archetype := RetrieveArchetypeTree(treeReference);
      match archetype
      case Failure(e) =>
        r := Failure(e);
      case Success(tree) =>
        r := Success(setEntity(cloneTree(tree), blackboard));
    }

    /** The overload without a blackboard: the same call with a null one. */
    method CreateBehaviorTree<B>(treeReference: string, cloneTree: Tree -> Tree,
                                 setEntity: (Tree, Option<B>) -> Tree)
      returns (r: Result<Tree, LibraryError>)
      ensures r.Failure? && r.error == RetrieveNotSupported
    {
      r := CreateBehaviorTreeWithBlackboard(treeReference, None, cloneTree, setEntity);
    }
  }

  /** A caller's view of one library: a fresh library knows no reference; of
      two registrations under one reference the later wins; a null archetype
      is refused without disturbing the entry; and creating an instance fails
      even for a registered reference. */
  method RegistrationScenario<Tree>(ref: string, first: Tree, second: Tree,
                                    cloneTree: Tree -> Tree, setEntity: (Tree, Option<int>) -> Tree)
    returns (before: bool, rejected: Outcome<LibraryError>, after: bool, stored: Option<Tree>,
             created: Result<Tree, LibraryError>)
    ensures !before
    ensures rejected == Fail(NullArchetype)
    ensures after && stored == Some(second)
    ensures created == Failure(RetrieveNotSupported)
  {
    var library := new BehaviorTreeLibrary<Tree>();
    before := library.HasArchetypeTree(ref);
    var accepted := library.RegisterArchetypeTree(ref, Some(first));
    accepted := library.RegisterArchetypeTree(ref, Some(second));
    rejected := library.RegisterArchetypeTree(ref, None);
    after := library.HasArchetypeTree(ref);
    stored := Lookup(library.repository, ref);
    created := library.CreateBehaviorTreeWithBlackboard(ref, Some(42), cloneTree, setEntity);
  }
}
