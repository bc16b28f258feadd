/** What a whole sequence of registerArchetypeTree calls does to a library:
    the entry for a reference is the archetype of the last accepted
    registration under it, or what was there before if there was none, and
    a reference is known exactly when it was known before or some accepted
    registration named it. */
module RegistrationHistory {
  import opened Wrappers
  import opened BehaviorTreeUtils

  /** One call registerArchetypeTree(reference, archetype). */
  datatype Registration<Tree> = Registration(reference: string, archetype: Option<Tree>)

  /** The repository after the calls, one after another, each caller going on
      after a refused call. No call ever drops a reference. */
  function RegisterAll<Tree>(repository: map<string, Tree>, calls: seq<Registration<Tree>>)
    : (r: map<string, Tree>)
    ensures repository.Keys <= r.Keys
    decreases |calls|
  {
    if calls == [] then repository
    else
      var last := calls[|calls| - 1];
      Register(RegisterAll(repository, calls[..|calls| - 1]), last.reference, last.archetype).1
  }

  /** The archetype of the last accepted registration under ref, if any. */
  function LastRegistered<Tree>(calls: seq<Registration<Tree>>, ref: string): (r: Option<Tree>)
    decreases |calls|
  {
    if calls == [] then None
    else
      var last := calls[|calls| - 1];
      if last.reference == ref && last.archetype.Some? then last.archetype
      else LastRegistered(calls[..|calls| - 1], ref)
  }

  /** Call i registers a non-null archetype under ref. */
  ghost predicate Accepted<Tree>(calls: seq<Registration<Tree>>, ref: string, i: int)
  {
    0 <= i < |calls| && calls[i].reference == ref && calls[i].archetype.Some?
  }

  /** Call i is the last one that registers a non-null archetype under ref. */
  ghost predicate LastAccepted<Tree>(calls: seq<Registration<Tree>>, ref: string, i: int)
  {
    Accepted(calls, ref, i) && forall j :: i < j < |calls| ==> !Accepted(calls, ref, j)
  }

  /** LastRegistered picks the archetype of the last accepted call. */
  lemma {:induction false} LastRegisteredIsLastAccepted<Tree>(calls: seq<Registration<Tree>>,
                                                             ref: string, i: int)
    requires LastAccepted(calls, ref, i)
    ensures LastRegistered(calls, ref) == calls[i].archetype
    decreases |calls|
  {
    var n := |calls| - 1;
    if i < n {
      var prefix := calls[..n];
      assert !Accepted(calls, ref, n);
      forall j | i < j < |prefix| ensures !Accepted(prefix, ref, j) {
        assert !Accepted(calls, ref, j);
      }
      LastRegisteredIsLastAccepted(prefix, ref, i);
    }
  }

  /** LastRegistered finds nothing exactly when no call is accepted for ref. */
  lemma {:induction false} LastRegisteredNone<Tree>(calls: seq<Registration<Tree>>, ref: string)
    ensures LastRegistered(calls, ref).None? <==> forall i :: !Accepted(calls, ref, i)
    decreases |calls|
  {
    if calls != [] {
      var n := |calls| - 1;
      var prefix := calls[..n];
      LastRegisteredNone(prefix, ref);
      if !Accepted(calls, ref, n) {
        forall i ensures Accepted(calls, ref, i) <==> Accepted(prefix, ref, i) {
        }
      } else {
        assert !forall i :: !Accepted(calls, ref, i) by { assert Accepted(calls, ref, n); }
      }
    }
  }

  /** The entry for ref after the calls: the last accepted archetype under
      ref, and otherwise the entry it had before. */
  lemma {:induction false} RegisterAllLookup<Tree>(repository: map<string, Tree>,
                                                  calls: seq<Registration<Tree>>, ref: string)
    ensures Lookup(RegisterAll(repository, calls), ref)
         == if LastRegistered(calls, ref).Some? then LastRegistered(calls, ref)
            else Lookup(repository, ref)
    decreases |calls|
  {
    if calls != [] {
      RegisterAllLookup(repository, calls[..|calls| - 1], ref);
    }
  }

  /** After the calls, the entry for ref is the archetype of the last accepted
      registration under it. */
  lemma LastAcceptedWins<Tree>(repository: map<string, Tree>, calls: seq<Registration<Tree>>,
                               ref: string, i: int)
    requires LastAccepted(calls, ref, i)
    ensures Lookup(RegisterAll(repository, calls), ref) == calls[i].archetype
  {
    LastRegisteredIsLastAccepted(calls, ref, i);
    RegisterAllLookup(repository, calls, ref);
  }

  /** A reference no accepted call names keeps the entry it had, or its
      absence. */
  lemma UntouchedReferenceKept<Tree>(repository: map<string, Tree>,
                                     calls: seq<Registration<Tree>>, ref: string)
    requires forall i :: !Accepted(calls, ref, i)
    ensures Lookup(RegisterAll(repository, calls), ref) == Lookup(repository, ref)
  {
    LastRegisteredNone(calls, ref);
    RegisterAllLookup(repository, calls, ref);
  }

  /** A reference is known after the calls exactly when it was known before
      or some accepted call registered under it. */
  lemma RegisterAllContains<Tree>(repository: map<string, Tree>,
                                  calls: seq<Registration<Tree>>, ref: string)
    ensures ref in RegisterAll(repository, calls)
        <==> ref in repository || exists i :: Accepted(calls, ref, i)
  {
    LastRegisteredNone(calls, ref);
    RegisterAllLookup(repository, calls, ref);
  }

  /** Starting from the empty repository of a new library, a reference is
      known exactly when some accepted call registered under it; a reference
      never registered stays unknown. */
  lemma FreshLibraryContains<Tree>(calls: seq<Registration<Tree>>, ref: string)
    ensures ref in RegisterAll(map[], calls) <==> exists i :: Accepted(calls, ref, i)
  {
    RegisterAllContains(map[], calls, ref);
  }
}
