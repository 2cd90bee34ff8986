/** The metadata of assemblies, and what one assembly says about a type name. */
module AssemblyMetadata {
  import opened Wrappers

  datatype Version = Version(major: nat, minor: nat, build: nat, revision: nat)

  datatype Redirect = Redirect(from: Version, upTo: Version, to: Version)

  datatype AssemblyRef = AssemblyRef(name: string, version: Version)

  /** A type definition. `display` is its name with the names of the enclosing types in front. */
  datatype TypeDef = TypeDef(namespace: string, name: string, encloser: Option<nat>, display: string)

  datatype Implementation = NestedExport | ModuleFile | Forwarder(reference: nat)

  datatype ExportedType = ExportedType(namespace: string, name: string, implementation: Implementation)

  datatype Scope = ExternalModule | CurrentModule | InAssembly(reference: nat) | ExportedScope | NestedIn(owner: nat)

  datatype TypeRef = TypeRef(namespace: string, name: string, scope: Scope)

  /** The metadata of one loaded assembly. */
  datatype Assembly = Assembly(name: string, version: Version, types: seq<TypeDef>, exported: seq<ExportedType>,
                               references: seq<AssemblyRef>, typeRefs: seq<TypeRef>)

  /** A resolved type: an assembly and an index into its type definitions. */
  datatype TypeDescription = TypeDescription(assembly: nat, index: nat)

  datatype Handle = Definition(index: nat) | Reference(index: nat)

  datatype Failure = NoFile | BadFile | NoManifest | VersionMismatch | NoType | NotImplemented | BadIndex

  datatype Result = Ok(found: TypeDescription) | Err(failure: Failure)

  /** A file that may hold an assembly. */
  datatype File = Unreadable | WithoutManifest | Holds(id: nat)

  /** What never changes: the metadata behind each assembly id, the files of the root directory, the support
      stubs, the binding redirects, the versioning policy and the names of the well-known types. A well-known
      type can have several spellings. */
  datatype World = World(metadata: nat -> Assembly, root: map<string, File>, stubs: map<string, TypeDescription>,
                         redirects: map<string, seq<Redirect>>, strict: bool, spellings: nat -> seq<string>)

  datatype Answer = Known(result: Result) | Forwarded(reference: AssemblyRef, name: string) | Unknown

  datatype RefScope =
    Unresolved(failure: Failure) | Outer(reference: AssemblyRef, name: string) | Inner(owner: nat, name: string)

  /** What lookups need to know of the metadata. `answer` is what an assembly says about a name, `nested` finds a
      type by its owner, `displayed` a nested type by its full display name. */
  datatype Net = Net(stubs: map<string, TypeDescription>, root: map<string, File>, manifest: nat -> string,
                     binds: (nat, AssemblyRef) -> bool, answer: (nat, string) -> Answer, scope: (nat, nat) -> RefScope,
                     nested: (TypeDescription, string) -> Option<nat>, displayed: (nat, string) -> Option<nat>,
                     spellings: nat -> seq<string>)

  ghost predicate Regular(net: Net) {
    && (forall id, full {:trigger AnswersAlike(net, id, full)} :: AnswersAlike(net, id, full))
    && (forall o, o', full {:trigger OneOwner(net, o, o', full)} :: OneOwner(net, o, o', full))
  }

  predicate AnswersAlike(net: Net, id: nat, full: string) {
    && net.answer(id, Rejoined(full)) == net.answer(id, full)
    && (net.answer(id, full).Forwarded? ==> net.answer(id, full).name == Rejoined(full))
  }

  predicate OneOwner(net: Net, o: TypeDescription, o': TypeDescription, full: string) {
    o.assembly == o'.assembly && net.nested(o, full).Some? && net.nested(o, full) == net.nested(o', full) ==> o == o'
  }

  // ------------------------------------------------------------ versions

  predicate AtLeast(a: Version, b: Version) {
    if a.major != b.major then a.major > b.major
    else if a.minor != b.minor then a.minor > b.minor
    else if a.build != b.build then a.build > b.build
    else a.revision >= b.revision
  }

  predicate Matches(r: Redirect, v: Version) {
    AtLeast(v, r.from) && AtLeast(r.upTo, v)
  }

  /** The first matching redirect decides the version that is really asked for. */
  function Redirected(redirects: seq<Redirect>, v: Version): Version {
    if redirects == [] then v
    else if Matches(redirects[0], v) then redirects[0].to
    else Redirected(redirects[1..], v)
  }

  function Wanted(w: World, r: AssemblyRef): Version {
    if r.name in w.redirects then Redirected(w.redirects[r.name], r.version) else r.version
  }

  /** Whether assembly `id` may stand for the reference. Without strict versioning every assembly may. */
  predicate Binds(w: World, id: nat, r: AssemblyRef) {
    var actual, wanted := w.metadata(id).version, Wanted(w, r);
    w.strict ==> actual.major == wanted.major && actual.minor == wanted.minor && AtLeast(actual, wanted)
  }

  // ------------------------------------------------------------ names

  function LastDot(s: string): (i: int)
    ensures -1 <= i < |s| && (i >= 0 ==> s[i] == '.') && forall k :: i < k < |s| ==> s[k] != '.'
  {
    if s == "" then -1
    else if s[|s| - 1] == '.' then |s| - 1
    else LastDot(s[..|s| - 1])
  }

  /** Namespace and name, split at the last dot. */
  function Split(full: string): (string, string) {
    var i := LastDot(full);
    if i < 0 then ("", full) else (full[..i], full[i + 1..])
  }

  function FullName(namespace: string, name: string): string {
    if namespace == "" then name else namespace + "." + name
  }

  /** The full name under which a forwarder passes a request on. */
  function Rejoined(full: string): string {
    FullName(Split(full).0, Split(full).1)
  }

  /** A name that starts with its only dot does not survive the round trip; every other name does. */
  lemma SplitThenJoin(full: string)
    ensures Rejoined(full) == full <==> LastDot(full) != 0
  {
    var i := LastDot(full);
    if i > 0 {
      assert full == full[..i] + [full[i]] + full[i + 1..];
    } else if i == 0 {
      assert |full[1..]| == |full| - 1;
    }
  }

  lemma LastDotIs(s: string, i: int)
    requires -1 <= i < |s| && (i >= 0 ==> s[i] == '.') && forall k :: i < k < |s| ==> s[k] != '.'
    ensures LastDot(s) == i
  {
  }

  /** A forwarded name asks for the same namespace and name, however often it is forwarded. */
  lemma RejoinedSplitsAlike(full: string)
    ensures Split(Rejoined(full)) == Split(full) && Rejoined(Rejoined(full)) == Rejoined(full)
  {
    var (namespace, name) := Split(full);
    var joined := FullName(namespace, name);
    if namespace == "" {
      LastDotIs(joined, -1);
    } else {
      assert joined[|namespace| + 1..] == name && joined[..|namespace|] == namespace;
      LastDotIs(joined, |namespace|);
    }
  }

  // ------------------------------------------------------------ lookups in one assembly

  function FindDefinition(types: seq<TypeDef>, namespace: string, name: string, from: nat): (i: Option<nat>)
    ensures i.Some? ==> from <= i.value < |types| && types[i.value].namespace == namespace
                        && types[i.value].name == name
    ensures i.Some? ==> forall k :: from <= k < i.value ==> !(types[k].namespace == namespace && types[k].name == name)
    ensures i.None? ==> forall k :: from <= k < |types| ==> !(types[k].namespace == namespace && types[k].name == name)
    decreases |types| - from
  {
    if |types| <= from then None
    else if types[from].namespace == namespace && types[from].name == name then Some(from)
    else FindDefinition(types, namespace, name, from + 1)
  }

  function FindExport(exported: seq<ExportedType>, namespace: string, name: string, from: nat): (i: Option<nat>)
    ensures i.Some? ==> from <= i.value < |exported| && exported[i.value].namespace == namespace
                        && exported[i.value].name == name
    ensures i.Some? ==> forall k :: from <= k < i.value ==>
        !(exported[k].namespace == namespace && exported[k].name == name)
    ensures i.None? ==> forall k :: from <= k < |exported| ==>
        !(exported[k].namespace == namespace && exported[k].name == name)
    decreases |exported| - from
  {
    if |exported| <= from then None
    else if exported[from].namespace == namespace && exported[from].name == name then Some(from)
    else FindExport(exported, namespace, name, from + 1)
  }

  function FindNested(types: seq<TypeDef>, owner: nat, full: string, from: nat): (i: Option<nat>)
    ensures i.Some? ==> from <= i.value < |types| && types[i.value].encloser == Some(owner)
                        && FullName(types[i.value].namespace, types[i.value].name) == full
    decreases |types| - from
  {
    if |types| <= from then None
    else if types[from].encloser == Some(owner)
         && FullName(types[from].namespace, types[from].name) == full then Some(from)
    else FindNested(types, owner, full, from + 1)
  }

  /** Both ways of writing a nested type, in one spelling. */
  function Normalized(s: string): string {
    seq(|s|, i requires 0 <= i < |s| => if s[i] == '/' then '+' else s[i])
  }

  /** The nested type with that display name, for names that are written like a nested type. */
  function FindDisplayed(types: seq<TypeDef>, full: string, from: nat): (i: Option<nat>)
    ensures i.Some? ==> from <= i.value < |types| && types[i.value].encloser.Some?
                        && Normalized(types[i.value].display) == Normalized(full)
    decreases |types| - from
  {
    if |types| <= from || !('+' in full || '/' in full) then None
    else if types[from].encloser.Some? && Normalized(types[from].display) == Normalized(full) then Some(from)
    else FindDisplayed(types, full, from + 1)
  }

  /** What assembly `id` says about a name: its definition, else its export, else nothing. */
  function AnswerOf(w: World, id: nat, full: string): Answer {
    var a := w.metadata(id);
    var (namespace, name) := Split(full);
    match FindDefinition(a.types, namespace, name, 0)
    case Some(i) => Known(Ok(TypeDescription(id, i)))
    case None =>
      match FindExport(a.exported, namespace, name, 0)
      case None => Unknown
      case Some(e) =>
        match a.exported[e].implementation
        case NestedExport => Known(Err(NotImplemented))
        case ModuleFile => Known(Err(NotImplemented))
        case Forwarder(k) =>
          if |a.references| <= k then Known(Err(BadIndex)) else Forwarded(a.references[k], FullName(namespace, name))
  }

  /** An assembly forwards a name that was forwarded to it exactly as it forwards the original one. */
  lemma RejoinedIsAnsweredAlike(w: World, id: nat, full: string)
    ensures AnswerOf(w, id, Rejoined(full)) == AnswerOf(w, id, full)
    ensures AnswerOf(w, id, full).Forwarded? ==> AnswerOf(w, id, full).name == Rejoined(full)
  {
    RejoinedSplitsAlike(full);
  }

  /** How a type reference is resolved: not at all, through an assembly reference, or in its resolved owner. */
  function ScopeOf(w: World, id: nat, k: nat): RefScope {
    var a := w.metadata(id);
    if |a.typeRefs| <= k then Unresolved(BadIndex)
    else
      var t := a.typeRefs[k];
      match t.scope
      case ExternalModule => Unresolved(NotImplemented)
      case CurrentModule => Unresolved(NotImplemented)
      case ExportedScope => Unresolved(NotImplemented)
      case InAssembly(r) => if |a.references| <= r then Unresolved(BadIndex)
                            else Outer(a.references[r], FullName(t.namespace, t.name))
      case NestedIn(owner) => Inner(owner, FullName(t.namespace, t.name))
  }

  /** The questions that lookups put to the metadata. */
  function NetOf(w: World): Net {
    Net(w.stubs, w.root, (id: nat) => w.metadata(id).name, (id: nat, r: AssemblyRef) => Binds(w, id, r),
        (id: nat, full: string) => AnswerOf(w, id, full), (id: nat, k: nat) => ScopeOf(w, id, k),
        (owner: TypeDescription, full: string) => FindNested(w.metadata(owner.assembly).types, owner.index, full, 0),
        (id: nat, full: string) => FindDisplayed(w.metadata(id).types, full, 0), w.spellings)
  }

  lemma NestedHasOneOwner(w: World, o: TypeDescription, o': TypeDescription, full: string)
    ensures OneOwner(NetOf(w), o, o', full)
  {
    var types, net := w.metadata(o.assembly).types, NetOf(w);
    assert net.nested(o, full) == FindNested(types, o.index, full, 0);
    if o.assembly == o'.assembly { assert net.nested(o', full) == FindNested(types, o'.index, full, 0); }
  }

  /** A forwarded name is answered as the name itself, and a nested type has one owner. */
  lemma NetIsRegular(w: World)
    ensures Regular(NetOf(w))
  {
    var net := NetOf(w);
    forall id, full ensures AnswersAlike(net, id, full) {
      RejoinedIsAnsweredAlike(w, id, full);
      assert net.answer(id, full) == AnswerOf(w, id, full)
             && net.answer(id, Rejoined(full)) == AnswerOf(w, id, Rejoined(full));
    }
    forall o, o', full ensures OneOwner(net, o, o', full) {
      NestedHasOneOwner(w, o, o', full);
    }
  }
}
