/** The assembly loader with its registry and its caches. Every method is proved against the uncached lookups; what
    the caches mean over runs is in `TypeCaches` and `CorlibResolution`. */
module TypeLoader {
  import opened Wrappers
  import opened AssemblyMetadata
  import opened TypeResolution
  import opened CorlibResolution
  import C = TypeCaches

  class Loader {
    const w: World
    var external: Registry
    var typeCache: map<Key, TypeDescription>
    var hits: nat
    var misses: nat
    var wellKnown: map<nat, TypeDescription>
    var dynamicCorlib: map<string, TypeDescription>

    /** A loader knows the files of its root directory and has the support library loaded. */
    constructor (w: World, files: set<string>, support: nat)
      ensures this.w == w && typeCache == map[] && wellKnown == map[] && dynamicCorlib == map[]
      ensures external.Keys == files + {CORE[2]} && external[CORE[2]] == Present(support)
      ensures forall n :: n in files && n != CORE[2] ==> external[n] == Pending(None)
    {
      this.w := w;
      external := (map n | n in files :: Pending(None))[CORE[2] := Present(support)];
      typeCache, hits, misses, wellKnown, dynamicCorlib := map[], 0, 0, map[], map[];
    }

    // ---------------------------------------------------------- the registry

    /** Registers the assembly under the name it declares, whatever the name stood for. */
    method RegisterAssembly(id: nat)
      modifies this`external
      ensures external == old(external)[w.metadata(id).name := Present(id)]
    {
      external := external[w.metadata(id).name := Present(id)];
    }

    method RegisterProbingPath(n: string, file: File)
      modifies this`external
      ensures external == C.WithProbe(old(external), n, file)
    {
      if n in external {
        return;
      }
      external := external[n := Pending(Some(file))];
    }

    method LoadAndRegister(n: string) returns (r: AssemblyResult)
      requires !IsLoaded(external, n)
      modifies this`external
      ensures Fetched(r, external) == Load(NetOf(w), old(external), n)
    {
      var file: Option<File> := None;
      if n in external && external[n].probe.Some? {
        file := external[n].probe;
      } else if n in w.root {
        file := Some(w.root[n]);
      }
      if file.None? {
        return Failed(NoFile);
      }
      match file.value {
        case Unreadable => r := Failed(BadFile);
        case WithoutManifest => r := Failed(NoManifest);
        case Holds(id) =>
          external := external[w.metadata(id).name := Present(id)];
          if w.metadata(id).name != n {
            external := external[n := Present(id)];
          }
          r := Loaded(id);
      }
    }

    /** The assembly of a name, loaded on demand. */
    method GetAssembly(n: string) returns (r: AssemblyResult)
      modifies this`external
      ensures Fetched(r, external) == Fetch(NetOf(w), old(external), n)
    {
      if n in external && external[n].Present? {
        return Loaded(external[n].id);
      }
      r := LoadAndRegister(n);
    }

    /** The assembly of a reference, after redirects and, under strict versioning, the version test. */
    method GetAssemblyWithVersion(reference: AssemblyRef) returns (r: AssemblyResult)
      modifies this`external
      ensures Fetched(r, external) == Get(NetOf(w), old(external), reference)
    {
      var wanted := reference.version;
      if reference.name in w.redirects {
        wanted := FirstRedirect(w.redirects[reference.name], reference.version);
      }
      r := GetAssembly(reference.name);
      if r.Loaded? && w.strict {
        var actual := w.metadata(r.id).version;
        if actual.major != wanted.major || actual.minor != wanted.minor || !AtLeast(actual, wanted) {
          assert !Binds(w, r.id, reference);
          r := Failed(VersionMismatch);
        }
      }
    }

    static method FirstRedirect(redirects: seq<Redirect>, version: Version) returns (v: Version)
      ensures v == Redirected(redirects, version)
    {
      var i := 0;
      while i < |redirects|
        invariant 0 <= i <= |redirects|
        invariant Redirected(redirects, version) == Redirected(redirects[i..], version)
      {
        if Matches(redirects[i], version) {
          return redirects[i].to;
        }
        i := i + 1;
      }
      v := version;
    }

    // ---------------------------------------------------------- lookups

    /** The lookup of a name through a reference; forwarders are followed as long as the lookup has a result. */
    method FindInAssembly(reference: AssemblyRef, full: string, ghost fuel: nat) returns (r: Result)
      requires Find(NetOf(w), external, reference, full, fuel).Some?
      modifies this`external
      ensures Find(NetOf(w), old(external), reference, full, fuel) == Some(Found(r, external))
      decreases fuel
    {
      if full in w.stubs {
        return Ok(w.stubs[full]);
      }
      var assembly := GetAssemblyWithVersion(reference);
      if assembly.Failed? {
        return Err(assembly.failure);
      }
      var answer := AnswerOf(w, assembly.id, full);
      FindAnswers(w, old(external), reference, full, fuel, assembly.id, external);
      match answer {
        case Known(result) => r := result;
        case Unknown => r := Err(NoType);
        case Forwarded(next, name) => r := FindInAssembly(next, name, fuel - 1);
      }
    }

    /** A lookup that has fetched its assembly goes on as the assembly answers. */
    static lemma FindAnswers(w: World, reg: Registry, r: AssemblyRef, full: string, fuel: nat, id: nat, reg1: Registry)
      requires fuel > 0 && full !in w.stubs && Get(NetOf(w), reg, r) == Fetched(Loaded(id), reg1)
      ensures Find(NetOf(w), reg, r, full, fuel)
              == match AnswerOf(w, id, full)
                 case Known(result) => Some(Found(result, reg1))
                 case Forwarded(next, name) => Find(NetOf(w), reg1, next, name, fuel - 1)
                 case Unknown => Some(Found(Err(NoType), reg1))
    {
      assert NetOf(w).answer(id, full) == AnswerOf(w, id, full);
    }

    method LocateTypeRef(id: nat, k: nat, ghost fuel: nat) returns (r: Result)
      requires LocateRef(NetOf(w), external, id, k, fuel).Some?
      modifies this`external
      ensures LocateRef(NetOf(w), old(external), id, k, fuel) == Some(Found(r, external))
      decreases fuel
    {
      match ScopeOf(w, id, k) {
        case Unresolved(failure) => r := Err(failure);
        case Outer(reference, full) => r := FindInAssembly(reference, full, fuel);
        case Inner(owner, full) =>
          r := LocateTypeRef(id, owner, fuel - 1);
          if r.Ok? {
            var i := FindNested(w.metadata(r.found.assembly).types, r.found.index, full, 0);
            r := if i.Some? then Ok(TypeDescription(r.found.assembly, i.value)) else Err(NoType);
          }
      }
    }

    /** The cached lookup: a hit answers from the cache, a miss is the uncached lookup, of which a type is cached and
        a failure is not. */
    method LocateType(id: nat, handle: Handle, ghost fuel: nat) returns (r: Result)
      requires (id, handle) in typeCache || Locate(NetOf(w), external, (id, handle), fuel).Some?
      modifies this`external, this`typeCache, this`hits, this`misses
      ensures C.State(external, typeCache)
              == C.AfterLookup(NetOf(w), C.State(old(external), old(typeCache)), (id, handle), fuel)
      ensures r == if (id, handle) in old(typeCache) then Ok(old(typeCache)[(id, handle)])
                   else Locate(NetOf(w), old(external), (id, handle), fuel).value.result
      ensures hits + misses == old(hits) + old(misses) + 1
      ensures hits == old(hits) + if (id, handle) in old(typeCache) then 1 else 0
    {
      var key := (id, handle);
      if key in typeCache {
        hits := hits + 1;
        return Ok(typeCache[key]);
      }
      misses := misses + 1;
      match handle {
        case Definition(d) => r := Ok(TypeDescription(id, d));
        case Reference(k) => r := LocateTypeRef(id, k, fuel);
      }
      if r.Ok? {
        typeCache := typeCache[key := r.found];
      }
    }

    // ---------------------------------------------------------- core-library types

    method TryFindInAssembly(id: nat, full: string, ghost fuel: nat) returns (found: Option<TypeDescription>)
      requires TryIn(NetOf(w), external, id, full, fuel).Some?
      modifies this`external
      ensures TryIn(NetOf(w), old(external), id, full, fuel) == Some(Tried(found, external))
    {
      match AnswerOf(w, id, full) {
        case Known(result) => found := if result.Ok? then Some(result.found) else None;
        case Forwarded(next, name) =>
          var result := FindInAssembly(next, name, fuel);
          found := if result.Ok? then Some(result.found) else None;
        case Unknown =>
          var i := FindDisplayed(w.metadata(id).types, full, 0);
          found := if i.Some? then Some(TypeDescription(id, i.value)) else None;
      }
    }

    /** The i-th core library: the result of the search if it ends here, or none if the search goes on. */
    method TryCore(i: nat, full: string, ghost tried: bool, ghost fuel: nat) returns (done: Option<Result>)
      requires i < |CORE| && SearchFrom(NetOf(w), external, full, i, tried, fuel).Some?
      modifies this`external
      ensures done.Some? ==> SearchFrom(NetOf(w), old(external), full, i, tried, fuel)
                             == Some(Found(done.value, external))
      ensures done.None? ==> SearchFrom(NetOf(w), old(external), full, i, tried, fuel)
                             == SearchFrom(NetOf(w), external, full, i + 1, tried
                                           || (i == 0 && CORE[0] in old(external)), fuel)
    {
      if CORE[i] !in external {
        return None;
      }
      var assembly := GetAssembly(CORE[i]);
      if assembly.Failed? {
        return Some(Err(assembly.failure));
      }
      var found := TryFindInAssembly(assembly.id, full, fuel);
      done := if found.Some? then Some(Ok(found.value)) else None;
    }

    /** The search for a core-library type: stubs, the registered core libraries in order, then mscorlib. */
    method CorlibTypeInternal(full: string, ghost fuel: nat) returns (r: Result)
      requires Corlib(NetOf(w), external, full, fuel).Some?
      modifies this`external
      ensures Corlib(NetOf(w), old(external), full, fuel) == Some(Found(r, external))
    {
      if full in w.stubs {
        return Ok(w.stubs[full]);
      }
      var triedMscorlib := MSCORLIB in external;
      var done := TryCore(0, full, false, fuel);
      if done.Some? {
        return done.value;
      }
      done := TryCore(1, full, triedMscorlib, fuel);
      if done.Some? {
        return done.value;
      }
      done := TryCore(2, full, triedMscorlib, fuel);
      if done.Some? {
        return done.value;
      }
      if triedMscorlib {
        return Err(NoType);
      }
      r := FindInAssembly(AssemblyRef(MSCORLIB, NO_VERSION), full, fuel);
    }

    /** The spellings of a well-known type are tried until one resolves. */
    method ResolveSpellings(names: seq<string>, ghost fuel: nat) returns (r: Result)
      requires Spelled(NetOf(w), external, names, fuel).Some?
      modifies this`external
      ensures Spelled(NetOf(w), old(external), names, fuel) == Some(Found(r, external))
      decreases |names|
    {
      if names == [] {
        return Err(NoType);
      }
      r := CorlibTypeInternal(names[0], fuel);
      if r.Err? && |names| > 1 {
        r := ResolveSpellings(names[1..], fuel);
      }
    }

    /** A well-known type: a set cell answers; an open cell is resolved, and set if that succeeds. */
    method CorlibWellKnown(cell: nat, ghost fuel: nat) returns (r: Result)
      requires cell in wellKnown || Spelled(NetOf(w), external, w.spellings(cell), fuel).Some?
      modifies this`external, this`wellKnown
      ensures ReadsCell(NetOf(w), CellState(old(external), old(wellKnown)), cell, fuel, CellState(external, wellKnown))
      ensures r.Ok? <==> cell in wellKnown
      ensures r.Ok? ==> r.found == wellKnown[cell]
    {
      if cell in wellKnown {
        return Ok(wellKnown[cell]);
      }
      r := ResolveSpellings(w.spellings(cell), fuel);
      if r.Ok? {
        wellKnown := wellKnown[cell := r.found];
      }
    }

    /** A core-library type whose name is given at run time, cached by name. */
    method CorlibType(full: string, ghost fuel: nat) returns (r: Result)
      requires full in dynamicCorlib || Corlib(NetOf(w), external, full, fuel).Some?
      modifies this`external, this`dynamicCorlib
      ensures full in old(dynamicCorlib) ==> r == Ok(old(dynamicCorlib)[full]) && external == old(external)
      ensures full !in old(dynamicCorlib) ==> Corlib(NetOf(w), old(external), full, fuel) == Some(Found(r, external))
      ensures dynamicCorlib == if r.Ok? then old(dynamicCorlib)[full := r.found] else old(dynamicCorlib)
    {
      if full in dynamicCorlib {
        assert dynamicCorlib[full := dynamicCorlib[full]] == dynamicCorlib;
        return Ok(dynamicCorlib[full]);
      }
      r := CorlibTypeInternal(full, fuel);
      if r.Ok? {
        dynamicCorlib := dynamicCorlib[full := r.found];
      }
    }
  }
}
