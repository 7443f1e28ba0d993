/**
  The `Models` collection: a mutable sequence of models whose names are kept
  unique by construction, `insert` (and so `append` and `extend`) and `+`.
  Models are looked up by position, slice, name or identity.

  The list operations are first stated as functions on `seq<Model>`; the
  methods of the `Models` class apply them to its `models` field.
 */
module ModelsCollection {
  import opened Wrappers
  import opened ModelBase

  /** The exceptions the collection raises. */
  datatype ModelsError =
    | InvalidType        // TypeError("Invalid type: ...")
    | NamesMustBeUnique  // ValueError("Model names must be unique")
    | NotInList          // ValueError raised by list.index
    | IndexOutOfRange    // IndexError raised by list indexing
    | NotIterable        // TypeError: only an iterable can be assigned to a slice

  /** A key of `index`, `__getitem__`, `__delitem__` and `__setitem__`: an
      int, a slice (step 1; `None` bounds are the ends), a name, a model, or
      anything else. */
  datatype Key = IntKey(i: int) | SliceKey(start: Option<int>, stop: Option<int>) | StrKey(s: string) | ModelKey(m: Model) | OtherKey

  /** What `index` returns: an int or a slice, passed on to the list. */
  datatype Position = At(i: int) | Span(start: Option<int>, stop: Option<int>)

  /** What `__getitem__` returns: one model, or the list of a slice. */
  datatype Item = One(m: Model) | Many(ms: seq<Model>)

  function NamesOf(ms: seq<Model>): (ns: seq<string>)
    ensures |ns| == |ms|
    ensures forall k :: 0 <= k < |ms| ==> ns[k] == ms[k].name
  {
    seq(|ms|, k requires 0 <= k < |ms| => ms[k].name)
  }

  /** The invariant of the collection: no two models share a name. */
  predicate UniqueNames(ms: seq<Model>) {
    forall a, b :: 0 <= a < b < |ms| ==> ms[a].name != ms[b].name
  }

  /** `list.index`: the first position holding `x`, none when absent. */
  function IndexOf<T(==)>(xs: seq<T>, x: T): (r: Option<nat>)
    ensures r.Some? <==> x in xs
    ensures r.Some? ==> r.value < |xs| && xs[r.value] == x && x !in xs[..r.value]
  {
    if xs == [] then None
    else if xs[0] == x then Some(0)
    else
      var rest := IndexOf(xs[1..], x);
      assert xs == [xs[0]] + xs[1..];
      if rest.None? then None
      else
        assert xs[..rest.value + 1] == [xs[0]] + xs[1..][..rest.value];
        Some(rest.value + 1)
  }

  /** `Models.index` over the list: ints and slices are returned as they
      are, a name gives the first model carrying it, a model the first
      position holding that very object. */
  function IndexIn(ms: seq<Model>, key: Key): (r: Result<Position, ModelsError>)
    ensures key.IntKey? ==> r == Success(At(key.i))
    ensures key.SliceKey? ==> r == Success(Span(key.start, key.stop))
    ensures key.StrKey? ==> (r.Success? <==> key.s in NamesOf(ms))
    ensures key.StrKey? && r.Success? ==>
              && r.value.At? && 0 <= r.value.i < |ms| && ms[r.value.i].name == key.s
              && forall t :: 0 <= t < r.value.i ==> ms[t].name != key.s
    ensures key.ModelKey? ==> (r.Success? <==> key.m in ms)
    ensures key.ModelKey? && r.Success? ==>
              && r.value.At? && 0 <= r.value.i < |ms| && ms[r.value.i] == key.m
              && forall t :: 0 <= t < r.value.i ==> ms[t] != key.m
    ensures r.Failure? ==> r.error == (if key.OtherKey? then InvalidType else NotInList)
  {
    match key
    case IntKey(i) => Success(At(i))
    case SliceKey(start, stop) => Success(Span(start, stop))
    case StrKey(s) =>
      var k := IndexOf(NamesOf(ms), s);
      if k.None? then Failure(NotInList)
      else
        assert forall t :: 0 <= t < k.value ==> NamesOf(ms)[..k.value][t] == ms[t].name;
        Success(At(k.value))
    case ModelKey(m) =>
      var k := IndexOf(ms, m);
      if k.None? then Failure(NotInList)
      else
        assert forall t :: 0 <= t < k.value ==> ms[..k.value][t] == ms[t];
        Success(At(k.value))
    case OtherKey => Failure(InvalidType)
  }

  /** Python's reading of an int index into a list of length `n`: negative
      indices count from the end; anything else outside the list is an
      IndexError. */
  function Wrap(i: int, n: nat): (r: Option<nat>)
    ensures r.Some? <==> -(n as int) <= i < n
    ensures r.Some? ==> r.value < n && (r.value == i || r.value == i + n)
  {
    if 0 <= i < n then Some(i) else if -(n as int) <= i < 0 then Some(i + n) else None
  }

  /** Python's clamping of a slice bound or an insertion index into
      [0, n]: negative values count from the end, and whatever still lies
      outside is moved to the nearest end. */
  function Clamp(i: int, n: nat): (r: nat)
    ensures r <= n
    ensures 0 <= i <= n ==> r == i
    ensures -(n as int) <= i < 0 ==> r == i + n
    ensures i < -(n as int) ==> r == 0
    ensures n < i ==> r == n
  {
    if i < 0 then (if i + n < 0 then 0 else i + n) else if i > n then n else i
  }

  /** The bounds a step-1 slice selects in a list of length `n`; an empty
      slice starts and stops at the same place. */
  function SliceBounds(start: Option<int>, stop: Option<int>, n: nat): (b: (nat, nat))
    ensures b.0 <= b.1 <= n
    ensures start.None? ==> b.0 == 0
    ensures stop.None? ==> b.1 == n
  {
    var lo := if start.None? then 0 else Clamp(start.value, n);
    var hi := if stop.None? then n else Clamp(stop.value, n);
    (lo, if hi < lo then lo else hi)
  }

  /** The positions [lo, hi) of the list that `self._models[self.index(key)]`
      refers to: one position for an int, a name or a model, a run of them
      for a slice. */
  function Selected(ms: seq<Model>, key: Key): (r: Result<(nat, nat), ModelsError>)
    ensures r.Success? ==> r.value.0 <= r.value.1 <= |ms|
    ensures r.Success? && !key.SliceKey? ==> r.value.1 == r.value.0 + 1
    ensures key.IntKey? ==> (r.Success? <==> -(|ms| as int) <= key.i < |ms|)
    ensures key.IntKey? && r.Success? ==> r.value.0 == Wrap(key.i, |ms|).value
    ensures key.SliceKey? ==> r == Success(SliceBounds(key.start, key.stop, |ms|))
    ensures key.StrKey? || key.ModelKey? ==> (r.Success? <==> IndexIn(ms, key).Success?)
    ensures (key.StrKey? || key.ModelKey?) && r.Success? ==> r.value.0 == IndexIn(ms, key).value.i
    ensures r.Failure? ==> r.error == if key.IntKey? then IndexOutOfRange else IndexIn(ms, key).error
  {
    var pos :- IndexIn(ms, key);
    match pos
    case At(i) =>
      var k := Wrap(i, |ms|);
      if k.None? then Failure(IndexOutOfRange) else Success((k.value, k.value + 1))
    case Span(start, stop) => Success(SliceBounds(start, stop, |ms|))
  }

  /** `__getitem__`: the model at the position `index` finds, or the list a
      slice selects. */
  function ItemIn(ms: seq<Model>, key: Key): (r: Result<Item, ModelsError>)
    ensures r.Failure? <==> Selected(ms, key).Failure?
    ensures key.IntKey? && r.Success? ==> r.value == One(ms[Wrap(key.i, |ms|).value])
    ensures key.StrKey? ==> (r.Success? <==> key.s in NamesOf(ms))
    ensures key.StrKey? && r.Success? ==>
              r.value.One? && r.value.m in ms && r.value.m.name == key.s &&
              forall t :: 0 <= t < |ms| && ms[t].name == key.s ==> ms[t] == r.value.m || Selected(ms, key).value.0 < t
    ensures key.ModelKey? ==> (r.Success? <==> key.m in ms)
    ensures key.ModelKey? && r.Success? ==> r.value == One(key.m)
    ensures key.SliceKey? ==>
              var b := SliceBounds(key.start, key.stop, |ms|);
              r == Success(Many(ms[b.0..b.1]))
    ensures key.OtherKey? ==> r == Failure(InvalidType)
  {
    var b :- Selected(ms, key);
    if key.SliceKey? then Success(Many(ms[b.0..b.1])) else Success(One(ms[b.0]))
  }

  /** Removing positions [lo, hi) keeps the names unique. */
  lemma RemovalKeepsUnique(ms: seq<Model>, lo: nat, hi: nat)
    requires lo <= hi <= |ms|
    ensures UniqueNames(ms) ==> UniqueNames(ms[..lo] + ms[hi..])
  {
    var r := ms[..lo] + ms[hi..];
    forall a, b | 0 <= a < b < |r| && UniqueNames(ms)
      ensures r[a].name != r[b].name
    {
      var a' := if a < lo then a else a + (hi - lo);
      var b' := if b < lo then b else b + (hi - lo);
      assert r[a] == ms[a'] && r[b] == ms[b'];
    }
  }

  /** `__delitem__`: `del self._models[self.index(key)]`. Deleting one model
      shortens the list by exactly that model and keeps the others in order;
      any deletion keeps the names unique. */
  function Deletion(ms: seq<Model>, key: Key): (r: Result<seq<Model>, ModelsError>)
    ensures r.Failure? <==> ItemIn(ms, key).Failure?
    ensures r.Failure? ==> r.error == Selected(ms, key).error
    ensures r.Success? ==>
              var b := Selected(ms, key).value;
              r.value == ms[..b.0] + ms[b.1..]
    ensures r.Success? && !key.SliceKey? ==>
              |r.value| == |ms| - 1 && multiset(r.value) + multiset{ItemIn(ms, key).value.m} == multiset(ms)
    ensures r.Success? && UniqueNames(ms) ==> UniqueNames(r.value)
  {
    var b :- Selected(ms, key);
    assert !key.SliceKey? ==> ms == ms[..b.0] + [ms[b.0]] + ms[b.1..];
    RemovalKeepsUnique(ms, b.0, b.1);
    Success(ms[..b.0] + ms[b.1..])
  }

  /** `__setitem__` as written: a SkyModel or SkyDiffuseCube is stored in
      slot `index(key)` whatever its name; another model is a TypeError;
      assigning a single model to a slice fails. */
  function AssignmentAsWritten(ms: seq<Model>, key: Key, m: Model): (r: Result<seq<Model>, ModelsError>)
    ensures m.kind == OtherKind ==> r == Failure(InvalidType)
    ensures m.kind != OtherKind && key.SliceKey? ==> r == Failure(NotIterable)
    ensures m.kind != OtherKind && !key.SliceKey? ==> (r.Success? <==> Selected(ms, key).Success?)
    ensures r.Success? ==>
              var k := Selected(ms, key).value.0;
              k < |ms| && r.value == ms[k := m]
  {
    if m.kind == OtherKind then Failure(InvalidType)
    else if key.SliceKey? then Failure(NotIterable)
    else
      var b :- Selected(ms, key);
      Success(ms[b.0 := m])
  }

  /** Storing a model under another model's name breaks the invariant: in a
      collection [a, b], `mods[1] = mods[0]` is accepted and leaves two
      models named like `a`. */
  lemma AssignmentAsWrittenBreaksUnique(a: Model, b: Model)
    requires a.kind == SkyModelKind && a.name != b.name
    ensures UniqueNames([a, b])
    ensures AssignmentAsWritten([a, b], IntKey(1), a) == Success([a, a])
    ensures !UniqueNames(AssignmentAsWritten([a, b], IntKey(1), a).value)
  {
    assert [a, b][1 := a] == [a, a];
    assert [a, a][0].name == [a, a][1].name;
  }

  /** `__setitem__` with the uniqueness check the collection promises: the
      model may not carry the name of a model in another slot. It is
      accepted exactly when the code as written accepts it and no other slot
      holds its name, and then names stay unique. */
  function Assignment(ms: seq<Model>, key: Key, m: Model): (r: Result<seq<Model>, ModelsError>)
    ensures AssignmentAsWritten(ms, key, m).Failure? ==> r == AssignmentAsWritten(ms, key, m)
    ensures AssignmentAsWritten(ms, key, m).Success? ==>
              var k := Selected(ms, key).value.0;
              && (r.Success? <==> forall t :: 0 <= t < |ms| && t != k ==> ms[t].name != m.name)
              && (r.Success? ==> r == AssignmentAsWritten(ms, key, m))
              && (r.Failure? ==> r.error == NamesMustBeUnique)
    ensures r.Success? && UniqueNames(ms) ==> UniqueNames(r.value)
  {
    var r :- AssignmentAsWritten(ms, key, m);
    var k := Selected(ms, key).value.0;
    if exists t :: 0 <= t < |ms| && t != k && ms[t].name == m.name then Failure(NamesMustBeUnique)
    else Success(r)
  }

  /** `list.insert(idx, m)`: `m` lands at the clamped index, and taking it
      out again gives back the list. */
  function Inserted(ms: seq<Model>, idx: int, m: Model): (r: seq<Model>)
    ensures |r| == |ms| + 1
    ensures r[Clamp(idx, |ms|)] == m
    ensures r[..Clamp(idx, |ms|)] + r[Clamp(idx, |ms|) + 1..] == ms
  {
    var c := Clamp(idx, |ms|);
    var r := ms[..c] + [m] + ms[c..];
    assert r[..c] == ms[..c] && r[c + 1..] == ms[c..];
    r
  }

  /** Where the models of an insertion come from. */
  lemma InsertedAt(ms: seq<Model>, idx: int, m: Model)
    ensures forall t :: 0 <= t < Clamp(idx, |ms|) ==> Inserted(ms, idx, m)[t] == ms[t]
    ensures forall t :: Clamp(idx, |ms|) < t <= |ms| ==> Inserted(ms, idx, m)[t] == ms[t - 1]
  {
    var c := Clamp(idx, |ms|);
    var r := Inserted(ms, idx, m);
    forall t | 0 <= t < c
      ensures r[t] == ms[t]
    {
      assert r[t] == (r[..c] + r[c + 1..])[t];
    }
    forall t | c < t <= |ms|
      ensures r[t] == ms[t - 1]
    {
      assert r[t] == (r[..c] + r[c + 1..])[t - 1];
    }
  }

  /** `Models.insert`: a model whose name is present is refused, any other
      is inserted. */
  function Insertion(ms: seq<Model>, idx: int, m: Model): (r: Result<seq<Model>, ModelsError>)
    ensures r.Failure? <==> m.name in NamesOf(ms)
    ensures r.Failure? ==> r.error == NamesMustBeUnique
    ensures r.Success? ==> r.value == Inserted(ms, idx, m)
  {
    if m.name in NamesOf(ms) then Failure(NamesMustBeUnique) else Success(Inserted(ms, idx, m))
  }

  /** An accepted insertion keeps the names unique. */
  lemma InsertionKeepsUnique(ms: seq<Model>, idx: int, m: Model)
    requires UniqueNames(ms) && Insertion(ms, idx, m).Success?
    ensures UniqueNames(Insertion(ms, idx, m).value)
  {
    var c := Clamp(idx, |ms|);
    var r := Inserted(ms, idx, m);
    InsertedAt(ms, idx, m);
    forall a, b | 0 <= a < b < |r|
      ensures r[a].name != r[b].name
    {
      if a == c {
        assert NamesOf(ms)[b - 1] == r[b].name;
      } else if b == c {
        assert NamesOf(ms)[a] == r[a].name;
      }
    }
  }

  /** What `extend` leaves behind: the list, how many models were appended,
      and the error that stopped it. */
  datatype Extended = Extended(list: seq<Model>, appended: nat, err: Option<ModelsError>)

  /** `extend`: each model is appended in turn; the first refused one stops
      the loop, and the models appended before it stay. */
  function Extension(ms: seq<Model>, vs: seq<Model>): (r: Extended)
    ensures r.appended <= |vs| && r.list == ms + vs[..r.appended]
    ensures r.err.None? <==> r.appended == |vs|
    ensures r.err.Some? ==> r.err.value == NamesMustBeUnique && vs[r.appended].name in NamesOf(r.list)
    decreases |vs|
  {
    if vs == [] then Extended(ms, 0, None)
    else
      match Insertion(ms, |ms|, vs[0])
      case Failure(e) => Extended(ms, 0, Some(e))
      case Success(next) =>
        var r := Extension(next, vs[1..]);
        assert next == ms + [vs[0]];
        assert ms + vs[..r.appended + 1] == next + vs[1..][..r.appended];
        Extended(r.list, r.appended + 1, r.err)
  }

  /** Every model `extend` appended carried a name new at its turn, so a list
      with unique names keeps them unique. */
  lemma {:induction false} ExtensionKeepsUnique(ms: seq<Model>, vs: seq<Model>)
    requires UniqueNames(ms)
    ensures UniqueNames(Extension(ms, vs).list)
    ensures forall t :: 0 <= t < Extension(ms, vs).appended ==> vs[t].name !in NamesOf(ms + vs[..t])
    decreases |vs|
  {
    if vs != [] && Insertion(ms, |ms|, vs[0]).Success? {
      var next := Insertion(ms, |ms|, vs[0]).value;
      InsertionKeepsUnique(ms, |ms|, vs[0]);
      ExtensionKeepsUnique(next, vs[1..]);
      assert next == ms + [vs[0]];
      forall t | 1 <= t < Extension(ms, vs).appended
        ensures vs[t].name !in NamesOf(ms + vs[..t])
      {
        assert ms + vs[..t] == next + vs[1..][..t - 1];
      }
    }
  }

  /** The right operand of `+`: a collection or list contributes its models,
      a single model itself; anything else is refused. */
  datatype Operand = ManyModels(list: seq<Model>) | OneModel(m: Model) | OtherOperand

  /** `Models.__add__`: a model already named in the collection is refused;
      otherwise the collection's models followed by the operand's are checked
      by the constructor. */
  function Addition(ms: seq<Model>, other: Operand): (r: Result<seq<Model>, ModelsError>)
    ensures other.OtherOperand? ==> r == Failure(InvalidType)
    ensures other.OneModel? && other.m.name in NamesOf(ms) ==> r == Failure(NamesMustBeUnique)
    ensures other.ManyModels? ==> (r.Success? <==> UniqueNames(ms + other.list))
    ensures other.OneModel? ==> (r.Success? <==> UniqueNames(ms + [other.m]))
    ensures r.Success? && other.ManyModels? ==> r.value == ms + other.list
    ensures r.Success? && other.OneModel? ==> r.value == ms + [other.m]
    ensures r.Failure? && !other.OtherOperand? ==> r.error == NamesMustBeUnique
  {
    match other
    case ManyModels(list) => if UniqueNames(ms + list) then Success(ms + list) else Failure(NamesMustBeUnique)
    case OneModel(m) =>
      if m.name in NamesOf(ms) then
        assert (ms + [m])[IndexOf(NamesOf(ms), m.name).value].name == (ms + [m])[|ms|].name;
        Failure(NamesMustBeUnique)
      else if UniqueNames(ms + [m]) then Success(ms + [m])
      else Failure(NamesMustBeUnique)
    case OtherOperand => Failure(InvalidType)
  }

  /** For a collection with unique names, adding a model succeeds exactly
      when its name is new, and the lengths add up. */
  lemma AdditionOfOneModel(ms: seq<Model>, m: Model)
    requires UniqueNames(ms)
    ensures Addition(ms, OneModel(m)).Success? <==> m.name !in NamesOf(ms)
    ensures Addition(ms, OneModel(m)).Success? ==> |Addition(ms, OneModel(m)).value| == |ms| + 1
  {
    if m.name !in NamesOf(ms) {
      var r := ms + [m];
      forall a, b | 0 <= a < b < |r|
        ensures r[a].name != r[b].name
      {
        if b == |ms| {
          assert NamesOf(ms)[a] == ms[a].name;
        }
      }
    }
  }

  /** Whether a name repeats, the way `Models.__init__` finds out: the names
      seen so far are collected, and a name met again is a duplicate. */
  method HasDuplicateName(ms: seq<Model>) returns (dup: bool)
    ensures dup <==> !UniqueNames(ms)
  {
    var unique: seq<string> := [];
    var k := 0;
    while k < |ms|
      invariant 0 <= k <= |ms|
      invariant unique == NamesOf(ms[..k])
      invariant UniqueNames(ms[..k])
    {
      if ms[k].name in unique {
        var t :| 0 <= t < k && unique[t] == ms[k].name;
        assert ms[t].name == ms[k].name;
        return true;
      }
      assert forall t :: 0 <= t < k ==> ms[t].name == unique[t];
      unique := unique + [ms[k].name];
      k := k + 1;
      assert ms[..k] == ms[..k - 1] + [ms[k - 1]];
    }
    assert ms[..k] == ms;
    return false;
  }

  /** What the `Models` constructor and `+` are given. */
  datatype Arg = NoArg | FromModels(other: Models) | FromModel(m: Model) | FromList(list: seq<Model>) | FromOther

  /** The list of models an argument of the constructor stands for. */
  function ArgList(arg: Arg): seq<Model>
    reads if arg.FromModels? then {arg.other} else {}
  {
    match arg
    case NoArg => []
    case FromModels(other) => other.models
    case FromModel(m) => [m]
    case FromList(list) => list
    case FromOther => []
  }

  /** The right operand of `+` that an argument stands for. */
  function OperandOf(arg: Arg): Operand
    reads if arg.FromModels? then {arg.other} else {}
  {
    match arg
    case FromModels(other) => ManyModels(other.models)
    case FromList(list) => ManyModels(list)
    case FromModel(m) => OneModel(m)
    case _ => OtherOperand
  }

  /** One entry of the parameter list of a model's dict. */
  datatype ParamRecord = ParamRecord(name: string, value: real, link: Option<string>)

  /** `Model.to_dict`: the model's type and its parameters. */
  datatype Component = Component(tag: string, parameters: seq<ParamRecord>)

  /** `Models.to_dict`: the components, and the covariance file when one is set. */
  datatype ModelsDict = ModelsDict(components: seq<Component>, covariance: Option<string>)

  /** `Models.parameters`: the parameters of the models, one model after another. */
  function Stacked(ms: seq<Model>): (ps: seq<Parameter>)
    reads set m | m in ms
  {
    if ms == [] then [] else Stacked(ms[..|ms| - 1]) + ms[|ms| - 1].Parameters()
  }

  /** The parameters `to_dict` labels, in the order of their second
      occurrence: a parameter is added when it is met again and was not
      added yet. */
  function SharedOf(ps: seq<Parameter>): seq<Parameter>
  {
    if ps == [] then []
    else
      var init := ps[..|ps| - 1];
      var p := ps[|ps| - 1];
      var shared := SharedOf(init);
      if p in init && p !in shared then shared + [p] else shared
  }

  /** A parameter is labelled exactly when it occurs at least twice in the
      stacked list, and it is labelled once. */
  lemma {:induction false} SharedIff(ps: seq<Parameter>)
    ensures forall p :: p in SharedOf(ps) <==> multiset(ps)[p] >= 2
    ensures forall a, b :: 0 <= a < b < |SharedOf(ps)| ==> SharedOf(ps)[a] != SharedOf(ps)[b]
  {
    if ps != [] {
      var init := ps[..|ps| - 1];
      var last := ps[|ps| - 1];
      SharedIff(init);
      assert ps == init + [last];
      assert multiset(ps) == multiset(init) + multiset{last};
      forall p
        ensures p in init <==> multiset(init)[p] >= 1
      {
      }
    }
  }

  /** The loop of `to_dict` that collects the parameters seen twice. */
  method SharedParameters(ps: seq<Parameter>) returns (shared: seq<Parameter>)
    ensures shared == SharedOf(ps)
  {
    var seen: seq<Parameter> := [];
    shared := [];
    var k := 0;
    while k < |ps|
      invariant 0 <= k <= |ps|
      invariant shared == SharedOf(ps[..k])
      invariant forall p :: p in seen <==> p in ps[..k]
    {
      var p := ps[k];
      assert ps[..k + 1][..k] == ps[..k];
      assert ps[..k + 1] == ps[..k] + [p];
      if p !in seen {
        seen := seen + [p];
      } else if p !in shared {
        shared := shared + [p];
      }
      k := k + 1;
    }
    assert ps[..k] == ps;
  }

  /** The entries of parameters in a model's dict. */
  function Records(ps: seq<Parameter>): (rs: seq<ParamRecord>)
    reads set p | p in ps
    ensures |rs| == |ps|
    ensures forall k :: 0 <= k < |ps| ==> rs[k] == ParamRecord(ps[k].name, ps[k].value, ps[k].linkLabel)
  {
    if ps == [] then [] else [ParamRecord(ps[0].name, ps[0].value, ps[0].linkLabel)] + Records(ps[1..])
  }

  /** `Model.to_dict`. */
  function ComponentOf(m: Model): Component
    reads m, set p | p in m.Parameters()
  {
    Component(m.tag, Records(m.Parameters()))
  }

  class Models {
    var models: seq<Model>
    var covarPath: Option<string>

    /** The collection after its checks: the list and no covariance file. */
    constructor Init(models: seq<Model>)
      ensures this.models == models && covarPath == None
    {
      this.models := models;
      covarPath := None;
    }

    /** The invariant the collection keeps: no two of its models share a name. */
    predicate Valid()
      reads this
    {
      UniqueNames(models)
    }

    /** `names`: the models' names in list order. */
    function Names(): (ns: seq<string>)
      reads this
    {
      NamesOf(models)
    }

    /** `Models.__init__`: None is the empty collection, a collection its
        list, a model the one-element list; a list is taken as it is and
        anything else is a TypeError. Repeated names are a ValueError;
        otherwise the names are the given ones in order. */
    static method New(arg: Arg) returns (r: Result<Models, ModelsError>)
      ensures arg.FromOther? ==> r == Failure(InvalidType)
      ensures !arg.FromOther? ==> (r.Success? <==> UniqueNames(ArgList(arg)))
      ensures !arg.FromOther? && r.Failure? ==> r.error == NamesMustBeUnique
      ensures r.Success? ==>
                && fresh(r.value) && r.value.models == ArgList(arg) && r.value.covarPath == None
                && r.value.Names() == NamesOf(ArgList(arg)) && r.value.Valid()
    {
      if arg.FromOther? {
        return Failure(InvalidType);
      }
      var list := ArgList(arg);
      var dup := HasDuplicateName(list);
      if dup {
        return Failure(NamesMustBeUnique);
      }
      var c := new Models.Init(list);
      return Success(c);
    }

    /** `insert`: refused, with the list unchanged, when the name is
        present; otherwise the model is inserted at `idx`. */
    method Insert(idx: int, m: Model) returns (err: Option<ModelsError>)
      modifies this
      ensures old(Valid()) ==> Valid()
      ensures Insertion(old(models), idx, m).Failure? ==>
                err == Some(NamesMustBeUnique) && models == old(models)
      ensures Insertion(old(models), idx, m).Success? ==>
                err == None && models == Insertion(old(models), idx, m).value
      ensures covarPath == old(covarPath)
    {
      if m.name in Names() {
        return Some(NamesMustBeUnique);
      }
      if Valid() { InsertionKeepsUnique(models, idx, m); }
      models := Inserted(models, idx, m);
      return None;
    }

    /** `append`, inherited: `insert(len(self), m)`. */
    method Append(m: Model) returns (err: Option<ModelsError>)
      modifies this
      ensures old(Valid()) ==> Valid()
      ensures Insertion(old(models), |old(models)|, m).Failure? ==>
                err == Some(NamesMustBeUnique) && models == old(models)
      ensures Insertion(old(models), |old(models)|, m).Success? ==>
                err == None && models == old(models) + [m]
      ensures covarPath == old(covarPath)
    {
      err := Insert(|models|, m);
      if err.None? {
        assert models == old(models)[..|old(models)|] + [m] + old(models)[|old(models)|..];
      }
    }

    /** `extend`, inherited: `append` of each model in turn, stopping at the
        first refused one. */
    method Extend(vs: seq<Model>) returns (err: Option<ModelsError>)
      modifies this
      ensures old(Valid()) ==> Valid()
      ensures models == Extension(old(models), vs).list
      ensures err == Extension(old(models), vs).err
      ensures covarPath == old(covarPath)
    {
      var k := 0;
      while k < |vs|
        invariant 0 <= k <= |vs|
        invariant k <= Extension(old(models), vs).appended
        invariant Extension(models, vs[k..]) == Extension(old(models), vs).(appended := Extension(old(models), vs).appended - k)
        invariant covarPath == old(covarPath)
        invariant old(Valid()) ==> Valid()
      {
        assert vs[k..][0] == vs[k] && vs[k..][1..] == vs[k + 1..];
        ghost var prev := models;
        err := Append(vs[k]);
        if err.Some? {
          assert Extension(prev, vs[k..]) == Extended(prev, 0, Some(NamesMustBeUnique));
          return;
        }
        assert Inserted(prev, |prev|, vs[k]) == models;
        ghost var rest := Extension(models, vs[k + 1..]);
        assert Extension(prev, vs[k..]) == Extended(rest.list, rest.appended + 1, rest.err);
        k := k + 1;
      }
      err := None;
    }

    /** `__delitem__`. */
    method DelItem(key: Key) returns (err: Option<ModelsError>)
      modifies this
      ensures old(Valid()) ==> Valid()
      ensures Deletion(old(models), key).Failure? ==>
                err == Some(Deletion(old(models), key).error) && models == old(models)
      ensures Deletion(old(models), key).Success? ==>
                err == None && models == Deletion(old(models), key).value
      ensures covarPath == old(covarPath)
    {
      var r := Deletion(models, key);
      if r.Failure? {
        return Some(r.error);
      }
      models := r.value;
      return None;
    }

    /** `remove`, inherited: `del self[self.index(m)]`. */
    method Remove(m: Model) returns (err: Option<ModelsError>)
      modifies this
      ensures old(Valid()) ==> Valid()
      ensures m !in old(models) ==> err == Some(NotInList) && models == old(models)
      ensures m in old(models) ==>
                err == None && |models| == |old(models)| - 1 && multiset(models) + multiset{m} == multiset(old(models))
      ensures m in old(models) ==>
                var k := IndexOf(old(models), m).value;
                models == old(models)[..k] + old(models)[k + 1..]
      ensures covarPath == old(covarPath)
    {
      err := DelItem(ModelKey(m));
    }

    /** `pop`, inherited: the model at index `i`, deleted from the list. */
    method Pop(i: int) returns (r: Result<Model, ModelsError>)
      modifies this
      ensures old(Valid()) ==> Valid()
      ensures !(-(|old(models)| as int) <= i < |old(models)|) ==> r == Failure(IndexOutOfRange) && models == old(models)
      ensures -(|old(models)| as int) <= i < |old(models)| ==>
                var k := Wrap(i, |old(models)|).value;
                r == Success(old(models)[k]) && models == old(models)[..k] + old(models)[k + 1..]
      ensures covarPath == old(covarPath)
    {
      var item := ItemIn(models, IntKey(i));
      if item.Failure? {
        return Failure(item.error);
      }
      var err := DelItem(IntKey(i));
      return Success(item.value.m);
    }

    /** `__setitem__`, with the uniqueness check the collection promises
        (see `AssignmentAsWritten` for the code as written). */
    method SetItem(key: Key, m: Model) returns (err: Option<ModelsError>)
      modifies this
      ensures old(Valid()) ==> Valid()
      ensures Assignment(old(models), key, m).Failure? ==>
                err == Some(Assignment(old(models), key, m).error) && models == old(models)
      ensures Assignment(old(models), key, m).Success? ==>
                err == None && models == Assignment(old(models), key, m).value
      ensures covarPath == old(covarPath)
    {
      var r := Assignment(models, key, m);
      if r.Failure? {
        return Some(r.error);
      }
      models := r.value;
      return None;
    }

    /** `__add__`: a new collection holding this one's models followed by
        the operand's. */
    method Add(other: Arg) returns (r: Result<Models, ModelsError>)
      ensures Addition(models, OperandOf(other)).Failure? ==>
                r == Failure(Addition(models, OperandOf(other)).error)
      ensures Addition(models, OperandOf(other)).Success? ==>
                && r.Success? && fresh(r.value) && r.value.covarPath == None
                && r.value.models == Addition(models, OperandOf(other)).value && r.value.Valid()
    {
      match other {
        case FromModels(o) =>
          r := New(FromList(models + o.models));
        case FromList(list) =>
          r := New(FromList(models + list));
        case FromModel(m) =>
          if m.name in Names() {
            return Failure(NamesMustBeUnique);
          }
          r := New(FromList(models + [m]));
        case _ =>
          r := Failure(InvalidType);
      }
    }
  
    /** `to_dict`: every parameter occurring more than once among the
        models' parameters is labelled `name@<new name>`, the t-th of them
        with the t-th name `makeName` produces, and no other parameter
        changes (the frame); the dict lists each model's type and parameters and names
        the covariance file exactly when one is set. */
    method ToDict(makeName: nat -> string) returns (d: ModelsDict)
      modifies set p | p in SharedOf(Stacked(models))
      ensures var shared := SharedOf(Stacked(models));
              forall t :: 0 <= t < |shared| ==> shared[t].linkLabel == Some(shared[t].name + "@" + makeName(t))
      ensures d.covariance == covarPath
      ensures |d.components| == |models|
      ensures forall k :: 0 <= k < |models| ==> d.components[k] == ComponentOf(models[k])
    {
      var ps := Stacked(models);
      var shared := SharedParameters(ps);
      SharedIff(ps);
      LabelShared(shared, makeName);
      assert Stacked(models) == ps;
      var components := Components(models);
      d := ModelsDict(components, covarPath);
    }
  }

  /** The labelling loop of `to_dict`. */
  method LabelShared(shared: seq<Parameter>, makeName: nat -> string)
    requires forall a, b :: 0 <= a < b < |shared| ==> shared[a] != shared[b]
    modifies set p | p in shared
    ensures forall t :: 0 <= t < |shared| ==> shared[t].linkLabel == Some(shared[t].name + "@" + makeName(t))
  {
    var t := 0;
    while t < |shared|
      invariant 0 <= t <= |shared|
      invariant forall s :: 0 <= s < t ==> shared[s].linkLabel == Some(shared[s].name + "@" + makeName(s))
    {
      shared[t].linkLabel := Some(shared[t].name + "@" + makeName(t));
      t := t + 1;
    }
  }

  /** The loop of `to_dict` that collects each model's dict. */
  method Components(ms: seq<Model>) returns (components: seq<Component>)
    ensures |components| == |ms|
    ensures forall k :: 0 <= k < |ms| ==> components[k] == ComponentOf(ms[k])
  {
    components := [];
    var k := 0;
    while k < |ms|
      invariant 0 <= k <= |ms|
      invariant |components| == k
      invariant forall j :: 0 <= j < k ==> components[j] == ComponentOf(ms[j])
    {
      components := components + [ComponentOf(ms[k])];
      k := k + 1;
    }
  }
}
