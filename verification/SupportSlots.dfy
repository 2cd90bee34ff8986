/** The support-slot definition: parsing its rows into a table indexed by slot id, and checking the annotated
    fields of the support assembly against that table. */
module SupportSlots {
  import opened Wrappers

  /** The metadata shape of a field. */
  datatype Signature =
    IntPtr | Int32 | Object | Str | Class(wellKnown: string) | SzArray(element: string) | ByRefGeneric(index: nat)

  datatype Storage = HandleObjectRef | ObjectRef | Usize | I32 | ManagedPtr

  datatype AccessorType = AsObjectRef | AsUsize | AsI32 | AsManagedPtr

  datatype Accessor = Accessor(name: string, valueType: AccessorType)

  datatype View = Alternate(accessor: Accessor) | Layout(layoutName: string)

  datatype Slot = Slot(id: int, semanticName: string, declaring: string, field: string, isStatic: bool,
                       signature: Signature, storage: Storage, accessor: Accessor, views: seq<View>)

  /** A row of the definition; `lexed` tells whether each of its columns could be read as what it stands for. */
  datatype Row = Row(slot: Slot, lexed: bool)

  function ViewName(v: View): string {
    match v
    case Alternate(accessor) => accessor.name
    case Layout(name) => name
  }

  /** The names of the primary accessor and of all views. */
  function AccessorNames(slot: Slot): (names: seq<string>)
    ensures |names| == |slot.views| + 1
  {
    [slot.accessor.name] + seq(|slot.views|, i requires 0 <= i < |slot.views| => ViewName(slot.views[i]))
  }

  // ------------------------------------------------------------ the shape of one slot

  function TypeOf(storage: Storage): AccessorType {
    match storage
    case HandleObjectRef => AsObjectRef
    case ObjectRef => AsObjectRef
    case Usize => AsUsize
    case I32 => AsI32
    case ManagedPtr => AsManagedPtr
  }

  /** The storage can hold a field of that signature. */
  predicate Holds(signature: Signature, storage: Storage) {
    match signature
    case IntPtr => storage == HandleObjectRef || storage == Usize
    case Int32 => storage == I32
    case Object => storage == ObjectRef
    case Str => storage == ObjectRef
    case Class(_) => storage == ObjectRef
    case SzArray(_) => storage == ObjectRef
    case ByRefGeneric(_) => storage == ManagedPtr
  }

  /** At most one alternate and one layout view; an alternate is the word-sized view of a handle. */
  predicate ViewsOk(slot: Slot) {
    && (forall i, j :: 0 <= i < j < |slot.views| ==> slot.views[i].Alternate? != slot.views[j].Alternate?)
    && (forall i :: 0 <= i < |slot.views| && slot.views[i].Alternate? ==>
          slot.signature == IntPtr && slot.storage == HandleObjectRef && slot.views[i].accessor.valueType == AsUsize)
  }

  predicate ShapeOk(slot: Slot) {
    slot.accessor.valueType == TypeOf(slot.storage) && Holds(slot.signature, slot.storage) && ViewsOk(slot)
  }

  /** In an accepted slot every way to access it agrees with the storage, or is the word-sized view of a handle. */
  lemma AccessAgreesWithStorage(slot: Slot, i: nat)
    requires ShapeOk(slot) && i < |slot.views|
    ensures slot.views[i].Alternate? ==>
              slot.views[i].accessor.valueType != slot.accessor.valueType && slot.accessor.valueType == AsObjectRef
  {
  }

  /** The view loop with its two flags. */
  method CheckViews(slot: Slot) returns (ok: bool)
    ensures ok <==> ViewsOk(slot)
  {
    var hasAlternate, hasLayout := false, false;
    for i := 0 to |slot.views|
      invariant hasAlternate <==> exists k :: 0 <= k < i && slot.views[k].Alternate?
      invariant hasLayout <==> exists k :: 0 <= k < i && slot.views[k].Layout?
      invariant forall k, m :: 0 <= k < m < i ==> slot.views[k].Alternate? != slot.views[m].Alternate?
      invariant forall k :: 0 <= k < i && slot.views[k].Alternate? ==>
                  slot.signature == IntPtr && slot.storage == HandleObjectRef
                  && slot.views[k].accessor.valueType == AsUsize
    {
      match slot.views[i] {
        case Alternate(alternate) =>
          if hasAlternate {
            return false;
          }
          hasAlternate := true;
          if !(slot.signature == IntPtr && slot.storage == HandleObjectRef && alternate.valueType == AsUsize) {
            return false;
          }
        case Layout(_) =>
          if hasLayout {
            return false;
          }
          hasLayout := true;
      }
    }
    ok := true;
  }

  predicate NoDuplicates(names: seq<string>) {
    forall i, j :: 0 <= i < j < |names| ==> names[i] != names[j]
  }

  /** Two rows can stand in one definition. */
  predicate Separate(a: Slot, b: Slot) {
    && a.id != b.id && a.semanticName != b.semanticName
    && (a.declaring, a.field) != (b.declaring, b.field)
    && forall name :: name in AccessorNames(a) ==> name !in AccessorNames(b)
  }

  predicate RowOk(r: Row) {
    r.lexed && r.slot.id > 0 && NoDuplicates(AccessorNames(r.slot)) && ShapeOk(r.slot)
  }

  /** Every row is fine and no two rows clash. */
  predicate Consistent(rows: seq<Row>) {
    && (forall i {:trigger RowOk(rows[i])} :: 0 <= i < |rows| ==> RowOk(rows[i]))
    && (forall i, j {:trigger Separate(rows[i].slot, rows[j].slot)} :: 0 <= i < j < |rows| ==>
        Separate(rows[i].slot, rows[j].slot))
  }

  /** The definition is accepted: consistent, not empty, and with ids that leave no gap from 1 on. */
  predicate Acceptable(rows: seq<Row>) {
    rows != [] && Consistent(rows) && forall i :: 0 <= i < |rows| ==> rows[i].slot.id <= |rows|
  }

  function SlotsOf(rows: seq<Row>): (s: seq<Slot>)
    ensures |s| == |rows| && forall i :: 0 <= i < |rows| ==> s[i] == rows[i].slot
  {
    seq(|rows|, i requires 0 <= i < |rows| => rows[i].slot)
  }

  /** The table of a definition: its slots, each at the place of its id. */
  predicate IsTable(rows: seq<Row>, slots: seq<Slot>) {
    multiset(slots) == multiset(SlotsOf(rows)) && forall i :: 0 <= i < |slots| ==> slots[i].id == i + 1
  }

  // ------------------------------------------------------------ the parser

  method Parse(rows: seq<Row>) returns (r: Option<seq<Slot>>)
    ensures r.Some? <==> Acceptable(rows)
    ensures r.Some? ==> IsTable(rows, r.value)
  {
    var consistent := CheckRows(rows);
    if !consistent || rows == [] {
      return None;
    }
    var slots := SortById(SlotsOf(rows));
    SortedIds(rows, slots);
    for i := 0 to |slots|
      invariant forall k :: 0 <= k < i ==> slots[k].id == k + 1
    {
      if slots[i].id != i + 1 {
        GapMeansTooLarge(rows, slots, i);
        return None;
      }
    }
    forall i | 0 <= i < |rows| ensures rows[i].slot.id <= |rows| {
      assert SlotsOf(rows)[i] in multiset(slots);
      var k :| 0 <= k < |slots| && slots[k] == rows[i].slot;
    }
    r := Some(slots);
  }

  /** The row loop with its sets of names seen so far. */
  method CheckRows(rows: seq<Row>) returns (consistent: bool)
    ensures consistent <==> Consistent(rows)
  {
    var ids: set<int>, names: set<string>, fields: set<(string, string)>, accessors: set<string> := {}, {}, {}, {};
    for n := 0 to |rows|
      invariant Consistent(rows[..n])
      invariant forall id :: id in ids <==> exists i :: 0 <= i < n && rows[i].slot.id == id
      invariant forall s :: s in names <==> exists i :: 0 <= i < n && rows[i].slot.semanticName == s
      invariant forall f :: f in fields <==> exists i :: 0 <= i < n && (rows[i].slot.declaring, rows[i].slot.field) == f
      invariant forall a :: a in accessors <==> exists i :: 0 <= i < n && a in AccessorNames(rows[i].slot)
    {
      var slot := rows[n].slot;
      if !rows[n].lexed || slot.id <= 0 || slot.id in ids || slot.semanticName in names
         || (slot.declaring, slot.field) in fields {
        RowClashes(rows, n);
        return false;
      }
      var unused, all := CheckAccessors(AccessorNames(slot), accessors);
      var views := CheckViews(slot);
      if !unused || !views || slot.accessor.valueType != TypeOf(slot.storage) || !Holds(slot.signature, slot.storage) {
        RowClashes(rows, n);
        return false;
      }
      ConsistentGrows(rows, n);
      ids, names, fields := ids + {slot.id}, names + {slot.semanticName}, fields + {(slot.declaring, slot.field)};
      accessors := all;
    }
    assert rows[..|rows|] == rows;
    consistent := true;
  }

  /** Adds the accessor names of one row one by one. */
  method CheckAccessors(names: seq<string>, seen: set<string>) returns (unused: bool, all: set<string>)
    ensures unused <==> NoDuplicates(names) && forall k :: 0 <= k < |names| ==> names[k] !in seen
    ensures unused ==> all == seen + set a | a in names
  {
    all := seen;
    for k := 0 to |names|
      invariant all == seen + set a | a in names[..k]
      invariant NoDuplicates(names[..k]) && forall m :: 0 <= m < k ==> names[m] !in seen
    {
      if names[k] in all {
        assert names[k] in seen || names[k] in names[..k];
        return false, all;
      }
      all := all + {names[k]};
      assert names[..k + 1] == names[..k] + [names[k]];
    }
    assert names[..|names|] == names;
    unused := true;
  }

  lemma ConsistentGrows(rows: seq<Row>, n: nat)
    requires n < |rows| && Consistent(rows[..n]) && RowOk(rows[n])
    requires forall i :: 0 <= i < n ==> Separate(rows[i].slot, rows[n].slot)
    ensures Consistent(rows[..n + 1])
  {
    var longer := rows[..n + 1];
    forall i | 0 <= i < |longer| ensures RowOk(longer[i]) {
      if i < n { assert RowOk(rows[..n][i]); }
    }
    forall i, j | 0 <= i < j < |longer| ensures Separate(longer[i].slot, longer[j].slot) {
      if j < n { assert Separate(rows[..n][i].slot, rows[..n][j].slot); }
    }
  }

  /** A row that is not fine, or clashes with an earlier one, spoils the definition. */
  lemma RowClashes(rows: seq<Row>, n: nat)
    requires n < |rows|
    requires !RowOk(rows[n]) || exists i :: 0 <= i < n && !Separate(rows[i].slot, rows[n].slot)
    ensures !Consistent(rows)
  {
  }

  predicate SortedById(w: seq<Slot>) {
    forall i, j :: 0 <= i < j < |w| ==> w[i].id <= w[j].id
  }

  method SortById(v: seq<Slot>) returns (w: seq<Slot>)
    ensures SortedById(w) && multiset(w) == multiset(v)
  {
    w := [];
    for n := 0 to |v|
      invariant SortedById(w) && multiset(w) == multiset(v[..n])
    {
      w := Insert(w, v[n]);
      assert v[..n + 1] == v[..n] + [v[n]];
    }
    assert v[..|v|] == v;
  }

  method Insert(w: seq<Slot>, x: Slot) returns (r: seq<Slot>)
    requires SortedById(w)
    ensures SortedById(r) && multiset(r) == multiset(w) + multiset{x}
  {
    var p := 0;
    while p < |w| && w[p].id <= x.id
      invariant 0 <= p <= |w|
      invariant forall k :: 0 <= k < p ==> w[k].id <= x.id
    {
      p := p + 1;
    }
    SortedInsert(w, p, x);
    assert w == w[..p] + w[p..];
    r := w[..p] + [x] + w[p..];
  }

  lemma SortedInsert(w: seq<Slot>, p: nat, x: Slot)
    requires SortedById(w) && p <= |w| && forall k :: 0 <= k < p ==> w[k].id <= x.id
    requires p < |w| ==> x.id <= w[p].id
    ensures SortedById(w[..p] + [x] + w[p..])
  {
    var r := w[..p] + [x] + w[p..];
    forall i, j | 0 <= i < j < |r| ensures r[i].id <= r[j].id {
      assert i > p ==> r[i] == w[i - 1];
      assert j > p ==> r[j] == w[j - 1];
    }
  }

  /** Sorted slots of a consistent definition have strictly increasing positive ids. */
  lemma SortedIds(rows: seq<Row>, slots: seq<Slot>)
    requires Consistent(rows) && multiset(slots) == multiset(SlotsOf(rows))
    requires SortedById(slots)
    ensures |slots| == |rows|
    ensures forall i :: 0 <= i < |slots| ==> slots[i].id > 0
    ensures forall i, j :: 0 <= i < j < |slots| ==> slots[i].id < slots[j].id
  {
    assert |slots| == |multiset(slots)| == |rows|;
    forall i | 0 <= i < |slots| ensures slots[i].id > 0 {
      assert slots[i] in multiset(SlotsOf(rows));
      var k :| 0 <= k < |rows| && SlotsOf(rows)[k] == slots[i];
      assert RowOk(rows[k]);
    }
    forall i, j | 0 <= i < j < |slots| ensures slots[i].id != slots[j].id {
      DistinctSlots(rows, slots, i, j);
    }
  }

  /** Two places of a permutation hold two different rows. */
  lemma DistinctSlots(rows: seq<Row>, slots: seq<Slot>, i: nat, j: nat)
    requires Consistent(rows) && multiset(slots) == multiset(SlotsOf(rows)) && i < j < |slots|
    ensures slots[i].id != slots[j].id
  {
    var all := SlotsOf(rows);
    forall p, q | 0 <= p < q < |all| ensures all[p] != all[q] {
      assert Separate(rows[p].slot, rows[q].slot);
    }
    var p, q := TwoPlaces(slots, all, i, j);
    assert p < q ==> Separate(rows[p].slot, rows[q].slot);
    assert q < p ==> Separate(rows[q].slot, rows[p].slot);
  }

  /** A permutation of a sequence without repetition takes two places to two places. */
  lemma TwoPlaces<T>(s: seq<T>, t: seq<T>, i: nat, j: nat) returns (p: nat, q: nat)
    requires multiset(s) == multiset(t) && i < j < |s|
    requires forall k, m :: 0 <= k < m < |t| ==> t[k] != t[m]
    ensures p < |t| && q < |t| && p != q && t[p] == s[i] && t[q] == s[j]
  {
    assert s[i] in multiset(t) && s[j] in multiset(t);
    p :| p < |t| && t[p] == s[i];
    q :| q < |t| && t[q] == s[j];
    OnePlace(t, s[i]);
    assert s == s[..i] + [s[i]] + s[i + 1..j] + [s[j]] + s[j + 1..];
  }

  lemma {:induction false} OnePlace<T>(s: seq<T>, x: T)
    requires forall i, j :: 0 <= i < j < |s| ==> s[i] != s[j]
    ensures multiset(s)[x] <= 1
  {
    if s != [] {
      var last := |s| - 1;
      OnePlace(s[..last], x);
      assert s == s[..last] + [s[last]];
    }
  }

  /** Strictly increasing positive ids with a gap run past the number of rows. */
  lemma GapMeansTooLarge(rows: seq<Row>, slots: seq<Slot>, i: nat)
    requires multiset(slots) == multiset(SlotsOf(rows)) && |slots| == |rows| && i < |slots|
    requires forall k :: 0 <= k < i ==> slots[k].id == k + 1
    requires slots[i].id != i + 1 && slots[i].id > 0
    requires forall k, m :: 0 <= k < m < |slots| ==> slots[k].id < slots[m].id
    ensures !Acceptable(rows)
  {
    assert i > 0 ==> slots[i - 1].id < slots[i].id;
    var last := |slots| - 1;
    IncreasingIds(slots, i, last);
    assert slots[last] in multiset(SlotsOf(rows));
    var k :| 0 <= k < |rows| && SlotsOf(rows)[k] == slots[last];
    assert rows[k].slot.id > |rows|;
  }

  lemma {:induction false} IncreasingIds(slots: seq<Slot>, i: nat, j: nat)
    requires i <= j < |slots| && forall k, m :: 0 <= k < m < |slots| ==> slots[k].id < slots[m].id
    ensures slots[j].id >= slots[i].id + (j - i)
    decreases j
  {
    if i < j { IncreasingIds(slots, i, j - 1); }
  }

  // ------------------------------------------------------------ what the table means

  /** Whether a definition is accepted does not depend on the order of its rows. */
  lemma AcceptanceIgnoresRowOrder(rows: seq<Row>, rows': seq<Row>)
    requires multiset(rows) == multiset(rows')
    ensures Acceptable(rows) <==> Acceptable(rows')
  {
    if Acceptable(rows) { ReorderedIsAcceptable(rows, rows'); }
    if Acceptable(rows') { ReorderedIsAcceptable(rows', rows); }
  }

  lemma ReorderedIsAcceptable(rows: seq<Row>, rows': seq<Row>)
    requires multiset(rows) == multiset(rows') && Acceptable(rows)
    ensures Acceptable(rows')
  {
    assert |rows| == |multiset(rows)| == |rows'|;
    forall i | 0 <= i < |rows'| ensures RowOk(rows'[i]) && rows'[i].slot.id <= |rows'| {
      assert rows'[i] in multiset(rows);
      var k :| 0 <= k < |rows| && rows[k] == rows'[i];
      assert RowOk(rows[k]);
    }
    forall i, j | 0 <= i < j < |rows'| ensures Separate(rows'[i].slot, rows'[j].slot) {
      forall p, q | 0 <= p < q < |rows| ensures rows[p] != rows[q] {
        assert Separate(rows[p].slot, rows[q].slot);
      }
      var p, q := TwoPlaces(rows', rows, i, j);
      assert p < q ==> Separate(rows[p].slot, rows[q].slot);
      assert q < p ==> Separate(rows[q].slot, rows[p].slot);
    }
  }

  /** The order of the rows does not matter: at most one table fits a definition in any order. */
  lemma TableIgnoresRowOrder(rows: seq<Row>, rows': seq<Row>, slots: seq<Slot>, slots': seq<Slot>)
    requires multiset(SlotsOf(rows)) == multiset(SlotsOf(rows')) && IsTable(rows, slots) && IsTable(rows', slots')
    ensures slots == slots'
  {
    assert |slots| == |multiset(slots)| == |multiset(slots')| == |slots'|;
    forall i | 0 <= i < |slots| ensures slots[i] == slots'[i] {
      assert slots[i] in multiset(slots');
      var j :| 0 <= j < |slots'| && slots'[j] == slots[i];
    }
  }

  /** Looking a slot up at `id - 1` finds the slot of that id, for exactly the ids of the definition. */
  lemma LookupById(rows: seq<Row>, slots: seq<Slot>, slot: Slot)
    requires IsTable(rows, slots)
    ensures slot in SlotsOf(rows) <==> 0 <= slot.id - 1 < |slots| && slots[slot.id - 1] == slot
  {
    if slot in SlotsOf(rows) {
      assert slot in multiset(slots);
      var j :| 0 <= j < |slots| && slots[j] == slot;
    } else if 0 <= slot.id - 1 < |slots| {
      assert slots[slot.id - 1] in multiset(SlotsOf(rows));
    }
  }

  // ------------------------------------------------------------ the contract of the support assembly

  /** A field of the support assembly and the slot ids it is annotated with. */
  datatype Field = Field(declaring: string, name: string, isStatic: bool, signature: Signature,
                         usedImplicitly: bool, annotations: seq<int>)

  /** A field together with one of its annotations. */
  datatype Use = Use(field: Field, id: int)

  function UsesOf(field: Field): (u: seq<Use>)
    ensures |u| == |field.annotations|
    ensures forall k :: 0 <= k < |u| ==> u[k] == Use(field, field.annotations[k])
  {
    seq(|field.annotations|, k requires 0 <= k < |field.annotations| => Use(field, field.annotations[k]))
  }

  /** All annotations, field by field. */
  function Uses(fields: seq<Field>): seq<Use> {
    if fields == [] then [] else Uses(fields[..|fields| - 1]) + UsesOf(fields[|fields| - 1])
  }

  /** The annotation names a slot of the table and the field is the one the slot describes. */
  predicate Fulfils(slots: seq<Slot>, use: Use) {
    && 1 <= use.id <= |slots|
    && var field, slot := use.field, slots[use.id - 1];
    && field.declaring == slot.declaring && field.name == slot.field
    && field.isStatic == slot.isStatic && field.signature == slot.signature
  }

  /** Every annotation is right, and no two name the same slot. */
  predicate Sound(slots: seq<Slot>, uses: seq<Use>) {
    && (forall k {:trigger Fulfils(slots, uses[k])} :: 0 <= k < |uses| ==> Fulfils(slots, uses[k]))
    && (forall k, m :: 0 <= k < m < |uses| ==> uses[k].id != uses[m].id)
  }

  predicate Names(uses: seq<Use>, id: int) {
    exists k :: 0 <= k < |uses| && uses[k].id == id
  }

  predicate AllUsedImplicitly(fields: seq<Field>) {
    forall f :: 0 <= f < |fields| && fields[f].annotations != [] ==> fields[f].usedImplicitly
  }

  /** The annotations and the slots correspond one to one, and every annotated field is marked as used. */
  predicate Corresponds(slots: seq<Slot>, fields: seq<Field>) {
    && Sound(slots, Uses(fields)) && AllUsedImplicitly(fields)
    && (forall id {:trigger Names(Uses(fields), id)} :: 1 <= id <= |slots| ==> Names(Uses(fields), id))
  }

  /** The scanned table: a slot is marked exactly if an annotation seen so far names it. */
  predicate Marks(scanned: seq<bool>, uses: seq<Use>) {
    forall i, id {:trigger scanned[i], Names(uses, id)} :: 0 <= i < |scanned| && id == i + 1 ==>
        (scanned[i] <==> Names(uses, id))
  }

  /** Every declaring type resolves. */
  predicate AllResolve(slots: seq<Slot>, resolve: string -> Option<nat>) {
    forall i :: 0 <= i < |slots| ==> resolve(slots[i].declaring).Some?
  }

  /** Validation accepts exactly the assemblies whose annotations correspond one to one to the slots and whose
      declaring types resolve; it registers for each slot its declaring type. */
  method ValidateContract(slots: seq<Slot>, fields: seq<Field>, resolve: string -> Option<nat>)
    returns (r: Option<seq<nat>>)
    ensures r.Some? <==> Corresponds(slots, fields) && AllResolve(slots, resolve)
    ensures r.Some? ==> |r.value| == |slots| && forall i :: 0 <= i < |slots| ==>
        resolve(slots[i].declaring) == Some(r.value[i])
  {
    var scanned := seq(|slots|, _ => false);
    for f := 0 to |fields|
      invariant |scanned| == |slots| && Sound(slots, Uses(fields[..f])) && Marks(scanned, Uses(fields[..f]))
      invariant AllUsedImplicitly(fields[..f])
    {
      UsesGrow(fields, f);
      var ok', scanned' := ScanField(slots, fields[f], scanned, Uses(fields[..f]));
      if !ok' {
        UsesOfPrefix(slots, fields, f + 1);
        return None;
      }
      if fields[f].annotations != [] && !fields[f].usedImplicitly {
        return None;
      }
      scanned := scanned';
    }
    assert fields[..|fields|] == fields;
    var registry: seq<nat> := [];
    for i := 0 to |slots|
      invariant forall id {:trigger Names(Uses(fields), id)} :: 1 <= id <= i ==> Names(Uses(fields), id)
      invariant |registry| == i && forall k :: 0 <= k < i ==> resolve(slots[k].declaring) == Some(registry[k])
    {
      if !scanned[i] {
        assert !Names(Uses(fields), i + 1);
        return None;
      }
      var declaring := resolve(slots[i].declaring);
      if declaring.None? {
        return None;
      }
      registry := registry + [declaring.value];
    }
    r := Some(registry);
  }

  /** The slot id of a field: the first slot with that declaring type and field name. */
  function IdForField(slots: seq<Slot>, registry: seq<nat>, declaring: nat, name: string, from: nat): (id: Option<int>)
    requires |registry| == |slots|
    decreases |slots| - from
  {
    if |slots| <= from then None
    else if registry[from] == declaring && slots[from].field == name then Some(slots[from].id)
    else IdForField(slots, registry, declaring, name, from + 1)
  }

  /** Where different declaring names resolve to different types, each field of the contract has its own slot id. */
  lemma {:induction false} FieldHasItsSlot(rows: seq<Row>, slots: seq<Slot>, resolve: string -> Option<nat>,
                                           registry: seq<nat>, i: nat, from: nat)
    requires Acceptable(rows) && IsTable(rows, slots) && |registry| == |slots| && from <= i < |slots|
    requires forall k :: 0 <= k < |slots| ==> resolve(slots[k].declaring) == Some(registry[k])
    requires forall a, b :: resolve(a).Some? && resolve(a) == resolve(b) ==> a == b
    ensures IdForField(slots, registry, registry[i], slots[i].field, from) == Some(i + 1)
    decreases i - from
  {
    if from < i {
      SlotsStaySeparate(rows, slots, from, i);
      FieldHasItsSlot(rows, slots, resolve, registry, i, from + 1);
    }
  }

  /** The annotations of one field; `ghost seen` are those of the fields before it. */
  method ScanField(slots: seq<Slot>, field: Field, before: seq<bool>, ghost seen: seq<Use>)
    returns (ok: bool, scanned: seq<bool>)
    requires |before| == |slots| && Sound(slots, seen) && Marks(before, seen)
    ensures ok <==> Sound(slots, seen + UsesOf(field))
    ensures ok ==> |scanned| == |slots| && Marks(scanned, seen + UsesOf(field))
  {
    scanned := before;
    ghost var all := UsesOf(field);
    assert seen + all[..0] == seen;
    for k := 0 to |field.annotations|
      invariant |scanned| == |slots| && Sound(slots, seen + all[..k]) && Marks(scanned, seen + all[..k])
    {
      var id := field.annotations[k];
      ghost var uses, next := seen + all[..k], seen + all[..k + 1];
      assert next == uses + [Use(field, id)] && next[|uses|] == (seen + all)[|uses|];
      if !(1 <= id <= |slots|) || field.declaring != slots[id - 1].declaring || field.name != slots[id - 1].field
         || field.isStatic != slots[id - 1].isStatic || field.signature != slots[id - 1].signature {
        assert !Fulfils(slots, (seen + all)[|uses|]);
        return false, scanned;
      }
      assert scanned[id - 1] <==> Names(uses, id);
      if scanned[id - 1] {
        ghost var m :| 0 <= m < |uses| && uses[m].id == id;
        assert (seen + all)[m].id == (seen + all)[|uses|].id;
        return false, scanned;
      }
      MarkNext(slots, uses, Use(field, id), scanned);
      scanned := scanned[id - 1 := true];
    }
    assert all[..|field.annotations|] == all;
    ok := true;
  }

  lemma MarkNext(slots: seq<Slot>, uses: seq<Use>, use: Use, scanned: seq<bool>)
    requires |scanned| == |slots| && Sound(slots, uses) && Marks(scanned, uses)
    requires Fulfils(slots, use) && !Names(uses, use.id)
    ensures Sound(slots, uses + [use]) && Marks(scanned[use.id - 1 := true], uses + [use])
  {
    var more, marked := uses + [use], scanned[use.id - 1 := true];
    forall k | 0 <= k < |more| ensures Fulfils(slots, more[k]) {
      if k < |uses| { assert Fulfils(slots, uses[k]); }
    }
    assert more[|uses|].id == use.id;
    forall i, id | 0 <= i < |marked| && id == i + 1 ensures marked[i] <==> Names(more, id) {
      assert scanned[i] <==> Names(uses, id);
      if Names(uses, id) {
        var k :| 0 <= k < |uses| && uses[k].id == id;
        assert more[k].id == id;
      }
    }
  }

  lemma UsesGrow(fields: seq<Field>, f: nat)
    requires f < |fields|
    ensures Uses(fields[..f + 1]) == Uses(fields[..f]) + UsesOf(fields[f])
  {
    assert fields[..f + 1][..f] == fields[..f];
  }

  /** Annotations that are wrong stay wrong when more fields follow. */
  lemma {:induction false} UsesOfPrefix(slots: seq<Slot>, fields: seq<Field>, f: nat)
    requires f <= |fields|
    ensures Sound(slots, Uses(fields)) ==> Sound(slots, Uses(fields[..f]))
    decreases |fields| - f
  {
    if f == |fields| {
      assert fields[..f] == fields;
    } else {
      UsesOfPrefix(slots, fields, f + 1);
      UsesGrow(fields, f);
      SoundPrefix(slots, Uses(fields[..f]), UsesOf(fields[f]));
    }
  }

  lemma SoundPrefix(slots: seq<Slot>, few: seq<Use>, more: seq<Use>)
    ensures Sound(slots, few + more) ==> Sound(slots, few)
  {
    var all := few + more;
    assert forall k :: 0 <= k < |few| ==> all[k] == few[k];
    assert forall k :: 0 <= k < |few| ==> (Fulfils(slots, all[k]) ==> Fulfils(slots, few[k]));
  }

  /** Some annotation names the slot and sits on the field the slot describes. */
  predicate Served(uses: seq<Use>, slot: Slot) {
    exists k :: 0 <= k < |uses| && uses[k].id == slot.id
                && (uses[k].field.declaring, uses[k].field.name) == (slot.declaring, slot.field)
  }

  /** In a valid assembly each slot has exactly one annotated field, which is the field it describes, and no
      annotated field serves two slots. */
  lemma ContractIsBijective(rows: seq<Row>, slots: seq<Slot>, fields: seq<Field>)
    requires Acceptable(rows) && IsTable(rows, slots) && Corresponds(slots, fields)
    ensures |Uses(fields)| == |slots|
    ensures forall i :: 0 <= i < |slots| ==> Served(Uses(fields), slots[i])
    ensures forall k, m :: 0 <= k < m < |slots| ==> Uses(fields)[k].field != Uses(fields)[m].field
  {
    var uses := Uses(fields);
    forall k | 0 <= k < |uses| ensures 1 <= uses[k].id <= |slots| { assert Fulfils(slots, uses[k]); }
    SameNumber(uses, |slots|);
    forall i | 0 <= i < |slots| ensures Served(uses, slots[i]) {
      assert Names(uses, i + 1);
      var k :| 0 <= k < |uses| && uses[k].id == i + 1;
      assert Fulfils(slots, uses[k]);
    }
    forall k, m | 0 <= k < m < |slots| ensures uses[k].field != uses[m].field {
      assert Fulfils(slots, uses[k]) && Fulfils(slots, uses[m]);
      SlotsStaySeparate(rows, slots, uses[k].id - 1, uses[m].id - 1);
    }
  }

  /** A sequence that names each of 1 .. n exactly once, and nothing else, has length n. */
  lemma {:induction false} SameNumber(uses: seq<Use>, n: nat)
    requires forall k :: 0 <= k < |uses| ==> 1 <= uses[k].id <= n
    requires forall k, m :: 0 <= k < m < |uses| ==> uses[k].id != uses[m].id
    requires forall id {:trigger Names(uses, id)} :: 1 <= id <= n ==> Names(uses, id)
    ensures |uses| == n
  {
    if n > 0 {
      assert Names(uses, n);
      var k :| 0 <= k < |uses| && uses[k].id == n;
      var rest := uses[..k] + uses[k + 1..];
      forall id | 1 <= id <= n - 1 ensures Names(rest, id) {
        assert Names(uses, id);
        var m :| 0 <= m < |uses| && uses[m].id == id;
        assert rest[if m < k then m else m - 1] == uses[m];
      }
      SameNumber(rest, n - 1);
    }
  }

  lemma SlotsStaySeparate(rows: seq<Row>, slots: seq<Slot>, i: nat, j: nat)
    requires Consistent(rows) && IsTable(rows, slots) && i < |slots| && j < |slots| && i != j
    ensures (slots[i].declaring, slots[i].field) != (slots[j].declaring, slots[j].field)
  {
    var all := SlotsOf(rows);
    assert slots[i] in multiset(all) && slots[j] in multiset(all);
    var p :| 0 <= p < |all| && all[p] == slots[i];
    var q :| 0 <= q < |all| && all[q] == slots[j];
    assert p < q ==> Separate(rows[p].slot, rows[q].slot);
    assert q < p ==> Separate(rows[q].slot, rows[p].slot);
  }
}
