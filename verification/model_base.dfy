/**
  Models and their parameters. A `Model` holds one `Parameter` object per
  default parameter of its class, as an instance attribute; several models
  can hold the same object, which is how parameters are linked. `_set_link`
  restores such links from their labels when models are read back.
 */
module ModelBase {
  import opened Wrappers

  /** A model parameter. Its link label is what `to_dict` writes so that
      shared parameters can be recognised when read back. */
  class Parameter {
    const name: string
    var value: real
    var linkLabel: Option<string>

    constructor (name: string, value: real, linkLabel: Option<string>)
      ensures this.name == name && this.value == value && this.linkLabel == linkLabel
    {
      this.name := name;
      this.value := value;
      this.linkLabel := linkLabel;
    }
  }

  /** The model classes `Models.__setitem__` distinguishes. */
  datatype Kind = SkyModelKind | SkyDiffuseCubeKind | OtherKind

  /** A keyword argument of the model constructor: a quantity, or a Parameter. */
  datatype Kwarg = Quantity(v: real) | Given(p: Parameter)

  /** A model. `tag` is the type name its dict carries, `defaults` the
      class's default parameters (class attributes), `attrs` the parameters
      set on the instance. */
  class Model {
    const name: string
    const tag: string
    const kind: Kind
    const defaults: seq<Parameter>
    var attrs: map<string, Parameter>

    /** The class declares each default parameter name once. */
    predicate DistinctDefaults() {
      forall a, b :: 0 <= a < b < |defaults| ==> defaults[a].name != defaults[b].name
    }

    /** `parameters`: the attribute of each default name, in the order of
        `default_parameters.names`. */
    function Parameters(): (ps: seq<Parameter>)
      reads this
      ensures |ps| == |defaults|
    {
      Resolve(attrs, defaults)
    }

    /** Every slot holds a parameter named like the slot. */
    predicate SlotsNamed()
      reads this
    {
      forall k :: 0 <= k < |defaults| ==> Parameters()[k].name == defaults[k].name
    }

    /** `Model.__init__`: each default parameter is the Parameter passed for
        its name, or else a fresh copy of the default carrying the quantity
        passed for it, or the default value. */
    constructor (name: string, tag: string, kind: Kind, defaults: seq<Parameter>, kwargs: map<string, Kwarg>)
      requires forall a, b :: 0 <= a < b < |defaults| ==> defaults[a].name != defaults[b].name
      requires forall n :: n in kwargs && kwargs[n].Given? ==> kwargs[n].p.name == n
      ensures this.name == name && this.tag == tag && this.kind == kind && this.defaults == defaults
      ensures attrs.Keys == set k | 0 <= k < |defaults| :: defaults[k].name
      ensures forall k :: 0 <= k < |defaults| && defaults[k].name in kwargs && kwargs[defaults[k].name].Given? ==>
                attrs[defaults[k].name] == kwargs[defaults[k].name].p
      ensures forall k :: 0 <= k < |defaults| && !(defaults[k].name in kwargs && kwargs[defaults[k].name].Given?) ==>
                var p := attrs[defaults[k].name];
                && fresh(p) && p.name == defaults[k].name && p.linkLabel == defaults[k].linkLabel
                && p.value == if defaults[k].name in kwargs then kwargs[defaults[k].name].v else defaults[k].value
      ensures forall k :: 0 <= k < |defaults| ==> Parameters()[k] == attrs[defaults[k].name]
      ensures SlotsNamed()
    {
      this.name := name;
      this.tag := tag;
      this.kind := kind;
      this.defaults := defaults;
      attrs := map[];
      new;
      attrs := DefaultAttrs(defaults, kwargs);
    }
  }

  /** The loop of `Model.__init__` over the default parameters: the
      attribute of each default name is the Parameter passed for it, or else
      a fresh copy of the default carrying the quantity passed for it, or the
      default value. */
  method DefaultAttrs(defaults: seq<Parameter>, kwargs: map<string, Kwarg>) returns (attrs: map<string, Parameter>)
    requires forall a, b :: 0 <= a < b < |defaults| ==> defaults[a].name != defaults[b].name
    requires forall n :: n in kwargs && kwargs[n].Given? ==> kwargs[n].p.name == n
    ensures attrs.Keys == set k | 0 <= k < |defaults| :: defaults[k].name
    ensures forall k :: 0 <= k < |defaults| && defaults[k].name in kwargs && kwargs[defaults[k].name].Given? ==>
              attrs[defaults[k].name] == kwargs[defaults[k].name].p
    ensures forall k :: 0 <= k < |defaults| && !(defaults[k].name in kwargs && kwargs[defaults[k].name].Given?) ==>
              var p := attrs[defaults[k].name];
              && fresh(p) && p.name == defaults[k].name && p.linkLabel == defaults[k].linkLabel
              && p.value == if defaults[k].name in kwargs then kwargs[defaults[k].name].v else defaults[k].value
  {
    attrs := map[];
    var k := 0;
    while k < |defaults|
      invariant 0 <= k <= |defaults|
      invariant attrs.Keys == set t | 0 <= t < k :: defaults[t].name
      invariant forall t :: 0 <= t < k && defaults[t].name in kwargs && kwargs[defaults[t].name].Given? ==>
                  attrs[defaults[t].name] == kwargs[defaults[t].name].p
      invariant forall t :: 0 <= t < k && !(defaults[t].name in kwargs && kwargs[defaults[t].name].Given?) ==>
                  var p := attrs[defaults[t].name];
                  && fresh(p) && p.name == defaults[t].name && p.linkLabel == defaults[t].linkLabel
                  && p.value == if defaults[t].name in kwargs then kwargs[defaults[t].name].v else defaults[t].value
    {
      var d := defaults[k];
      var par: Parameter;
      if d.name in kwargs && kwargs[d.name].Given? {
        par := kwargs[d.name].p;
      } else {
        var value := if d.name in kwargs then kwargs[d.name].v else d.value;
        par := new Parameter(d.name, value, d.linkLabel);
      }
      attrs := attrs[par.name := par];
      k := k + 1;
    }
  }

  /** The parameter each default name resolves to: the instance attribute of
      that name, or else the class attribute. */
  function Resolve(attrs: map<string, Parameter>, defaults: seq<Parameter>): (ps: seq<Parameter>)
    ensures |ps| == |defaults|
    ensures forall k :: 0 <= k < |defaults| && defaults[k].name in attrs ==> ps[k] == attrs[defaults[k].name]
    ensures forall k :: 0 <= k < |defaults| && defaults[k].name !in attrs ==> ps[k] == defaults[k]
  {
    seq(|defaults|, k requires 0 <= k < |defaults| => if defaults[k].name in attrs then attrs[defaults[k].name] else defaults[k])
  }

  /** One step of `_set_link` on the register: a label not yet registered is
      registered with the parameter carrying it. */
  function Enter(register: map<string, Parameter>, p: Parameter): map<string, Parameter>
    reads p
  {
    if p.linkLabel.Some? && p.linkLabel.value !in register then register[p.linkLabel.value := p] else register
  }

  /** The register after `_set_link` has gone over `params`: every label not
      yet registered is registered with the first parameter carrying it. */
  function Register(register: map<string, Parameter>, params: seq<Parameter>): map<string, Parameter>
    reads set p | p in params
  {
    if params == [] then register
    else Enter(Register(register, params[..|params| - 1]), params[|params| - 1])
  }

  /** The register only grows: no entry is ever replaced or removed. */
  lemma {:induction false} RegisterOnlyGrows(register: map<string, Parameter>, params: seq<Parameter>)
    ensures forall l :: l in register ==> l in Register(register, params) && Register(register, params)[l] == register[l]
  {
    if params != [] {
      RegisterOnlyGrows(register, params[..|params| - 1]);
    }
  }

  /** Afterwards the register holds exactly its old labels and those of the
      parameters. */
  lemma {:induction false} RegisterKeys(register: map<string, Parameter>, params: seq<Parameter>)
    ensures Register(register, params).Keys ==
            register.Keys + set k | 0 <= k < |params| && params[k].linkLabel.Some? :: params[k].linkLabel.value
  {
    if params != [] {
      var init := params[..|params| - 1];
      RegisterKeys(register, init);
      var p := params[|params| - 1];
      assert forall k :: 0 <= k < |init| ==> init[k] == params[k];
      var lhs := set k | 0 <= k < |params| && params[k].linkLabel.Some? :: params[k].linkLabel.value;
      var rhs := set k | 0 <= k < |init| && init[k].linkLabel.Some? :: init[k].linkLabel.value;
      assert lhs == rhs + (if p.linkLabel.Some? then {p.linkLabel.value} else {});
    }
  }

  /** Every label carried by a parameter is registered afterwards. */
  lemma {:induction false} RegisterCovers(register: map<string, Parameter>, params: seq<Parameter>)
    ensures forall t :: 0 <= t < |params| && params[t].linkLabel.Some? ==>
              params[t].linkLabel.value in Register(register, params)
  {
    if params != [] {
      var init := params[..|params| - 1];
      RegisterCovers(register, init);
      assert forall t :: 0 <= t < |init| ==> init[t] == params[t];
    }
  }

  /** A newly registered label maps to the first parameter carrying it. */
  lemma {:induction false} RegisterFirst(register: map<string, Parameter>, params: seq<Parameter>)
    ensures forall l :: l in Register(register, params) && l !in register ==>
              exists k :: 0 <= k < |params| && params[k] == Register(register, params)[l] && params[k].linkLabel == Some(l) &&
                          forall t :: 0 <= t < k ==> params[t].linkLabel != Some(l)
  {
    if params != [] {
      var init := params[..|params| - 1];
      RegisterFirst(register, init);
      RegisterCovers(register, init);
      forall l | l in Register(register, params) && l !in register
        ensures exists k :: 0 <= k < |params| && params[k] == Register(register, params)[l] &&
                            params[k].linkLabel == Some(l) && forall t :: 0 <= t < k ==> params[t].linkLabel != Some(l)
      {
        FirstCarrier(register, params, l);
      }
    }
  }

  /** The step of `RegisterFirst` for one label: a label registered before
      the last parameter keeps its first carrier; otherwise the last
      parameter registered it and no earlier one carries it. */
  lemma FirstCarrier(register: map<string, Parameter>, params: seq<Parameter>, l: string)
    requires params != []
    requires var init := params[..|params| - 1];
             forall l :: l in Register(register, init) && l !in register ==>
               exists k :: 0 <= k < |init| && init[k] == Register(register, init)[l] && init[k].linkLabel == Some(l) &&
                           forall t :: 0 <= t < k ==> init[t].linkLabel != Some(l)
    requires var init := params[..|params| - 1];
             forall t :: 0 <= t < |init| && init[t].linkLabel.Some? ==> init[t].linkLabel.value in Register(register, init)
    requires l in Register(register, params) && l !in register
    ensures exists k :: 0 <= k < |params| && params[k] == Register(register, params)[l] &&
                        params[k].linkLabel == Some(l) && forall t :: 0 <= t < k ==> params[t].linkLabel != Some(l)
  {
    var init := params[..|params| - 1];
    var before := Register(register, init);
    var after := Register(register, params);
    assert after == Enter(before, params[|params| - 1]);
    if l in before {
      var k :| 0 <= k < |init| && init[k] == before[l] && init[k].linkLabel == Some(l) &&
               forall t :: 0 <= t < k ==> init[t].linkLabel != Some(l);
      assert params[k] == after[l];
      assert forall t :: 0 <= t < k ==> params[t] == init[t];
    } else {
      var k := |params| - 1;
      assert forall t :: 0 <= t < k ==> params[t] == init[t];
      assert params[k] == after[l];
    }
  }

  /** Afterwards the register holds exactly its old labels and those of the
      parameters; a newly registered label maps to a parameter carrying it,
      and to the first one. */
  lemma RegisterLabels(register: map<string, Parameter>, params: seq<Parameter>)
    ensures Register(register, params).Keys ==
            register.Keys + set k | 0 <= k < |params| && params[k].linkLabel.Some? :: params[k].linkLabel.value
    ensures forall l :: l in Register(register, params) && l !in register ==>
              exists k :: 0 <= k < |params| && params[k] == Register(register, params)[l] && params[k].linkLabel == Some(l) &&
                          forall t :: 0 <= t < k ==> params[t].linkLabel != Some(l)
  {
    RegisterKeys(register, params);
    RegisterFirst(register, params);
  }

  /** The loop body of `_set_link` for the parameter in slot `k`. */
  method LinkSlot(register: map<string, Parameter>, model: Model, k: nat) returns (reg: map<string, Parameter>)
    requires k < |model.defaults| && model.DistinctDefaults() && model.Parameters()[k].name == model.defaults[k].name
    modifies model
    ensures reg == Enter(register, old(model.Parameters()[k]))
    ensures forall t :: 0 <= t < |model.defaults| && t != k ==> model.Parameters()[t] == old(model.Parameters()[t])
    ensures old(model.Parameters()[k]).linkLabel.Some? ==>
              old(model.Parameters()[k]).linkLabel.value in reg &&
              model.Parameters()[k] == reg[old(model.Parameters()[k]).linkLabel.value]
    ensures old(model.Parameters()[k]).linkLabel.None? ==> model.Parameters()[k] == old(model.Parameters()[k])
  {
    var param := model.Parameters()[k];
    reg := register;
    if param.linkLabel.Some? {
      var tag := param.linkLabel.value;
      if tag in reg {
        model.attrs := model.attrs[param.name := reg[tag]];
      } else {
        reg := reg[tag := param];
      }
    }
  }

  /** The slots after `_set_link`: a labelled parameter is replaced by the
      register's object for its label, an unlabelled one stays. */
  predicate Relinked(before: seq<Parameter>, after: seq<Parameter>, reg: map<string, Parameter>)
    reads set p | p in before
  {
    && |after| == |before|
    && forall k :: 0 <= k < |before| ==>
         if before[k].linkLabel.Some?
         then before[k].linkLabel.value in reg && after[k] == reg[before[k].linkLabel.value]
         else after[k] == before[k]
  }

  /** After `_set_link`, parameters that carried the same label are one object. */
  lemma RelinkedShares(before: seq<Parameter>, after: seq<Parameter>, reg: map<string, Parameter>)
    requires Relinked(before, after, reg)
    ensures forall a, b ::
              && 0 <= a < |before| && 0 <= b < |before|
              && before[a].linkLabel.Some? && before[a].linkLabel == before[b].linkLabel
              ==> after[a] == after[b]
  {
  }

  /** Going over one more parameter is one more `Enter`. */
  lemma RegisterStep(register: map<string, Parameter>, params: seq<Parameter>, k: nat)
    requires k < |params|
    ensures Register(register, params[..k + 1]) == Enter(Register(register, params[..k]), params[k])
  {
    assert params[..k + 1][..k] == params[..k];
  }

  /** Linking slot `k` keeps the slots before it linked. */
  lemma RelinkedStep(params: seq<Parameter>, slots: seq<Parameter>, next: seq<Parameter>,
                     before: map<string, Parameter>, reg: map<string, Parameter>, k: nat)
    requires k < |params| == |slots| == |next|
    requires Relinked(params[..k], slots[..k], before)
    requires reg == Enter(before, params[k])
    requires forall t :: 0 <= t < |params| && t != k ==> next[t] == slots[t]
    requires params[k].linkLabel.Some? ==> params[k].linkLabel.value in reg && next[k] == reg[params[k].linkLabel.value]
    requires params[k].linkLabel.None? ==> next[k] == params[k]
    ensures Relinked(params[..k + 1], next[..k + 1], reg)
  {
  }

  /** `from_dict` runs `_set_link` over its models with one register: a
      parameter of a later model whose label a parameter of an earlier model
      carried ends up as the very object the earlier slot holds. */
  lemma LinkedAcrossModels(register: map<string, Parameter>,
                           before1: seq<Parameter>, after1: seq<Parameter>,
                           before2: seq<Parameter>, after2: seq<Parameter>)
    requires Relinked(before1, after1, Register(register, before1))
    requires Relinked(before2, after2, Register(Register(register, before1), before2))
    ensures forall a, b ::
              && 0 <= a < |before1| && 0 <= b < |before2|
              && before1[a].linkLabel.Some? && before1[a].linkLabel == before2[b].linkLabel
              ==> after1[a] == after2[b]
  {
    RegisterOnlyGrows(Register(register, before1), before2);
  }

  /** One turn of the `_set_link` loop: slot `k` is linked and entered,
      the slots before it stay relinked and the slots after it untouched. */
  method LinkNext(register: map<string, Parameter>, params: seq<Parameter>, model: Model, k: nat,
                  reg0: map<string, Parameter>, ghost slots: seq<Parameter>)
    returns (reg: map<string, Parameter>, ghost next: seq<Parameter>)
    requires model.DistinctDefaults() && k < |params| == |model.defaults|
    requires params[k].name == model.defaults[k].name
    requires slots == model.Parameters()
    requires reg0 == Register(register, params[..k])
    requires Relinked(params[..k], slots[..k], reg0)
    requires forall t :: k <= t < |params| ==> slots[t] == params[t]
    modifies model
    ensures next == model.Parameters()
    ensures reg == Register(register, params[..k + 1])
    ensures Relinked(params[..k + 1], next[..k + 1], reg)
    ensures forall t :: k + 1 <= t < |params| ==> next[t] == params[t]
  {
    RegisterStep(register, params, k);
    reg := LinkSlot(reg0, model, k);
    next := model.Parameters();
    RelinkedStep(params, slots, next, reg0, reg, k);
  }

  /** `_set_link`: each labelled parameter of the model whose label is
      registered is replaced on the model by the registered object; the others
      are registered. */
  method SetLink(register: map<string, Parameter>, model: Model) returns (reg: map<string, Parameter>)
    requires model.DistinctDefaults() && model.SlotsNamed()
    modifies model
    ensures reg == Register(register, old(model.Parameters()))
    ensures Relinked(old(model.Parameters()), model.Parameters(), reg)
  {
    var params := model.Parameters();
    reg := register;
    ghost var slots := params;
    var k := 0;
    while k < |params|
      invariant 0 <= k <= |params|
      invariant slots == model.Parameters()
      invariant reg == Register(register, params[..k])
      invariant Relinked(params[..k], slots[..k], reg)
      invariant forall t :: k <= t < |params| ==> slots[t] == params[t]
    {
      reg, slots := LinkNext(register, params, model, k, reg, slots);
      k := k + 1;
    }
    assert params[..k] == params;
    assert slots[..k] == slots;
  }
}
