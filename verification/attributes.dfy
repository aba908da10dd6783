/** The vertex-attribute and morph-target loops of `gltfPrimitive.initGl`
    (src/primitive.js): slot assignment against the glTF 2.0 semantic table
    (section 3.7.2, "Meshes", of the glTF 2.0 specification), shader
    defines, the skip/joint/weight flags and the slot budget. */
module Attributes {
  import opened Wrappers
  import opened Entities

  /** The semantics the attribute switch recognises. */
  datatype Semantic =
    | Position | Normal | Tangent | TexCoord0 | TexCoord1
    | Color0 | Joints0 | Weights0 | Joints1 | Weights1

  /** The case labels of the attribute switch: which semantic a key selects. */
  function SemanticOf(key: string): Option<Semantic>
  {
    if key == "POSITION" then Some(Position)
    else if key == "NORMAL" then Some(Normal)
    else if key == "TANGENT" then Some(Tangent)
    else if key == "TEXCOORD_0" then Some(TexCoord0)
    else if key == "TEXCOORD_1" then Some(TexCoord1)
    else if key == "COLOR_0" then Some(Color0)
    else if key == "JOINTS_0" then Some(Joints0)
    else if key == "WEIGHTS_0" then Some(Weights0)
    else if key == "JOINTS_1" then Some(Joints1)
    else if key == "WEIGHTS_1" then Some(Weights1)
    else None
  }

  /** An attribute-map entry together with the case its key selects. */
  datatype Entry = Entry(key: string, semantic: Option<Semantic>, accessor: nat)

  /** The attribute map as the switch sees it, key by key. */
  function Classify(attrs: AttributeMap): (es: seq<Entry>)
    ensures |es| == |attrs|
    ensures forall k :: 0 <= k < |attrs| ==>
      es[k].key == attrs[k].0 && es[k].accessor == attrs[k].1 && es[k].semantic == SemanticOf(attrs[k].0)
  {
    seq(|attrs|, k requires 0 <= k < |attrs| => Entry(attrs[k].0, SemanticOf(attrs[k].0), attrs[k].1))
  }

  /** The shader input name the switch gives a semantic. */
  function VariableName(s: Semantic): string
  {
    match s
    case Position => "a_Position"
    case Normal => "a_Normal"
    case Tangent => "a_Tangent"
    case TexCoord0 => "a_UV1"
    case TexCoord1 => "a_UV2"
    case Color0 => "a_Color"
    case Joints0 => "a_Joint1"
    case Weights0 => "a_Weight1"
    case Joints1 => "a_Joint2"
    case Weights1 => "a_Weight2"
  }

  /** The defines a bound main attribute pushes: none for POSITION, one
      naming the accessor's element type for COLOR_0 (reading it throws when
      the accessor does not exist), one fixed string otherwise. */
  function SemanticDefines(s: Semantic, accessor: nat, accessors: seq<Accessor>): Result<seq<string>, InitError>
  {
    if s == Position then Success([])
    else if s == Color0 then
      if accessor < |accessors|
      then Success(["HAS_VERTEX_COLOR_" + accessors[accessor].elementType + " 1"])
      else Failure(AccessorOutOfRange(accessor))
    else Success([FixedDefine(s)])
  }

  /** The define string of a semantic whose define does not depend on the accessor. */
  function FixedDefine(s: Semantic): string
    requires s != Position && s != Color0
  {
    match s
    case Normal => "HAS_NORMALS 1"
    case Tangent => "HAS_TANGENTS 1"
    case TexCoord0 => "HAS_UV_SET1 1"
    case TexCoord1 => "HAS_UV_SET2 1"
    case Joints0 => "HAS_JOINT_SET1 1"
    case Weights0 => "HAS_WEIGHT_SET1 1"
    case Joints1 => "HAS_JOINT_SET2 1"
    case Weights1 => "HAS_WEIGHT_SET2 1"
  }

  /** Records one bound main attribute in the derived fields. */
  function Bind(d: Derived, e: Entry, s: Semantic, defines: seq<string>): Derived
  {
    Derived(
      glAttributes := d.glAttributes + [GlAttribute(e.key, VariableName(s), e.accessor)],
      defines := d.defines + defines,
      skip := d.skip && s != Position,
      hasWeights := d.hasWeights || s == Weights0 || s == Weights1,
      hasJoints := d.hasJoints || s == Joints0 || s == Joints1)
  }

  /** The main attribute loop: keys in order, stopping for good once the
      number of slots reaches `maxAttributes`; unknown semantics bind nothing. */
  function MainPass(es: seq<Entry>, accessors: seq<Accessor>, maxAttributes: nat, d: Derived): Result<Derived, InitError>
    decreases |es|
  {
    if |es| == 0 || |d.glAttributes| >= maxAttributes then Success(d)
    else
      match es[0].semantic
      case None => MainPass(es[1..], accessors, maxAttributes, d)
      case Some(s) =>
        var defines :- SemanticDefines(s, es[0].accessor, accessors);
        MainPass(es[1..], accessors, maxAttributes, Bind(d, es[0], s, defines))
  }

  // ---------------------------------------------------------------------
  // Reference description of the main loop: the first `budget` recognised
  // entries of the map, in key order.

  /** The entries whose key the switch recognises, in order. */
  function Known(es: seq<Entry>): (k: seq<Entry>)
    ensures forall i :: 0 <= i < |k| ==> k[i].semantic.Some?
  {
    if |es| == 0 then []
    else (if es[0].semantic.Some? then [es[0]] else []) + Known(es[1..])
  }

  /** The first `n` elements of `s` (all of them when there are fewer). */
  function Take<T>(s: seq<T>, n: nat): (t: seq<T>)
    ensures |t| == if n < |s| then n else |s|
  {
    if n == 0 || |s| == 0 then [] else [s[0]] + Take(s[1..], n - 1)
  }

  /** The slots still free when `used` of `maxAttributes` are taken. */
  function Budget(used: nat, maxAttributes: nat): nat
  {
    if used < maxAttributes then maxAttributes - used else 0
  }

  /** The entries the main loop binds: the first `Budget` recognised ones. */
  function BoundEntries(es: seq<Entry>, used: nat, maxAttributes: nat): (b: seq<Entry>)
    ensures forall i :: 0 <= i < |b| ==> b[i].semantic.Some?
  {
    var b := Take(Known(es), Budget(used, maxAttributes));
    TakeElements(Known(es), Budget(used, maxAttributes));
    b
  }

  lemma {:induction false} TakeElements<T>(s: seq<T>, n: nat)
    ensures forall i :: 0 <= i < |Take(s, n)| ==> Take(s, n)[i] == s[i]
    decreases n
  {
    if n > 0 && |s| > 0 {
      TakeElements(s[1..], n - 1);
    }
  }

  /** The slot descriptors of recognised entries. */
  function Descriptors(b: seq<Entry>): (ds: seq<GlAttribute>)
    requires forall i :: 0 <= i < |b| ==> b[i].semantic.Some?
    ensures |ds| == |b|
  {
    if |b| == 0 then []
    else [GlAttribute(b[0].key, VariableName(b[0].semantic.value), b[0].accessor)] + Descriptors(b[1..])
  }

  /** The semantics of recognised entries, in order. */
  function Semantics(b: seq<Entry>): (ss: seq<Semantic>)
    requires forall i :: 0 <= i < |b| ==> b[i].semantic.Some?
    ensures |ss| == |b|
  {
    if |b| == 0 then [] else [b[0].semantic.value] + Semantics(b[1..])
  }

  /** Every COLOR_0 entry names an existing accessor. */
  predicate ColorsInRange(b: seq<Entry>, accessorCount: nat)
  {
    forall i :: 0 <= i < |b| && b[i].semantic == Some(Color0) ==> b[i].accessor < accessorCount
  }

  /** The defines of recognised entries, in order. */
  function BoundDefines(b: seq<Entry>, accessors: seq<Accessor>): seq<string>
    requires forall i :: 0 <= i < |b| ==> b[i].semantic.Some?
    requires ColorsInRange(b, |accessors|)
  {
    if |b| == 0 then []
    else SemanticDefines(b[0].semantic.value, b[0].accessor, accessors).value + BoundDefines(b[1..], accessors)
  }

  /** One step of the main loop on a recognised first key inside the budget. */
  lemma MainPassStep(es: seq<Entry>, used: nat, maxAttributes: nat)
    requires |es| > 0 && used < maxAttributes && es[0].semantic.Some?
    ensures BoundEntries(es, used, maxAttributes) == [es[0]] + BoundEntries(es[1..], used + 1, maxAttributes)
  {
    assert Known(es) == [es[0]] + Known(es[1..]);
  }

  lemma ColorsInRangeCons(e: Entry, tail: seq<Entry>, accessorCount: nat)
    ensures ColorsInRange([e] + tail, accessorCount) <==>
      (e.semantic == Some(Color0) ==> e.accessor < accessorCount) && ColorsInRange(tail, accessorCount)
  {
    var b := [e] + tail;
    if ColorsInRange(tail, accessorCount) && (e.semantic == Some(Color0) ==> e.accessor < accessorCount) {
      forall i | 0 <= i < |b| && b[i].semantic == Some(Color0) ensures b[i].accessor < accessorCount {
        if i > 0 { assert b[i] == tail[i - 1]; }
      }
    }
    if ColorsInRange(b, accessorCount) {
      assert b[0] == e;
      forall i | 0 <= i < |tail| && tail[i].semantic == Some(Color0) ensures tail[i].accessor < accessorCount {
        assert b[i + 1] == tail[i];
      }
    }
  }

  /** The loop on an exhausted map or budget binds nothing more. */
  lemma MainPassStop(es: seq<Entry>, accessors: seq<Accessor>, maxAttributes: nat, d: Derived)
    requires |es| == 0 || |d.glAttributes| >= maxAttributes
    ensures MainPass(es, accessors, maxAttributes, d) == Success(d)
    ensures BoundEntries(es, |d.glAttributes|, maxAttributes) == []
  {
  }

  /** The loop body on an unknown first key inside the budget: skip it. */
  lemma MainPassSkipStep(es: seq<Entry>, accessors: seq<Accessor>, maxAttributes: nat, d: Derived)
    requires |es| > 0 && |d.glAttributes| < maxAttributes && es[0].semantic.None?
    ensures MainPass(es, accessors, maxAttributes, d) == MainPass(es[1..], accessors, maxAttributes, d)
    ensures BoundEntries(es, |d.glAttributes|, maxAttributes) == BoundEntries(es[1..], |d.glAttributes|, maxAttributes)
  {
    assert Known(es) == Known(es[1..]);
  }

  /** The loop body on a recognised first key inside the budget, when its
      define can be computed: bind it and go on with the rest. */
  lemma MainPassBindStep(es: seq<Entry>, accessors: seq<Accessor>, maxAttributes: nat, d: Derived)
    requires |es| > 0 && |d.glAttributes| < maxAttributes && es[0].semantic.Some?
    requires SemanticDefines(es[0].semantic.value, es[0].accessor, accessors).Success?
    ensures MainPass(es, accessors, maxAttributes, d) ==
      MainPass(es[1..], accessors, maxAttributes,
        Bind(d, es[0], es[0].semantic.value, SemanticDefines(es[0].semantic.value, es[0].accessor, accessors).value))
    ensures BoundEntries(es, |d.glAttributes|, maxAttributes) ==
      [es[0]] + BoundEntries(es[1..], |d.glAttributes| + 1, maxAttributes)
  {
    MainPassStep(es, |d.glAttributes|, maxAttributes);
  }

  /** The main loop fails exactly when one of the entries it binds is a
      COLOR_0 whose accessor does not exist. */
  lemma {:induction false} MainPassFails(es: seq<Entry>, accessors: seq<Accessor>, maxAttributes: nat, d: Derived)
    ensures MainPass(es, accessors, maxAttributes, d).Success? <==>
      ColorsInRange(BoundEntries(es, |d.glAttributes|, maxAttributes), |accessors|)
    decreases |es|
  {
    if |es| == 0 || |d.glAttributes| >= maxAttributes {
      MainPassStop(es, accessors, maxAttributes, d);
    } else if es[0].semantic.None? {
      MainPassSkipStep(es, accessors, maxAttributes, d);
      MainPassFails(es[1..], accessors, maxAttributes, d);
    } else {
      var s := es[0].semantic.value;
      var tail := BoundEntries(es[1..], |d.glAttributes| + 1, maxAttributes);
      assert BoundEntries(es, |d.glAttributes|, maxAttributes) == [es[0]] + tail by {
        MainPassStep(es, |d.glAttributes|, maxAttributes);
      }
      ColorsInRangeCons(es[0], tail, |accessors|);
      if SemanticDefines(s, es[0].accessor, accessors).Success? {
        MainPassBindStep(es, accessors, maxAttributes, d);
        MainPassFails(es[1..], accessors, maxAttributes,
          Bind(d, es[0], s, SemanticDefines(s, es[0].accessor, accessors).value));
      }
    }
  }

  /** The main loop binds exactly the first `Budget` recognised entries, in
      key order, and nothing else: the keys after the budget check has fired
      and the unknown semantics take no slot. */
  lemma {:induction false} MainPassBindsBudgetedPrefix(
    es: seq<Entry>, accessors: seq<Accessor>, maxAttributes: nat, d: Derived)
    ensures var r := MainPass(es, accessors, maxAttributes, d);
      r.Success? ==>
        r.value.glAttributes == d.glAttributes + Descriptors(BoundEntries(es, |d.glAttributes|, maxAttributes))
    decreases |es|
  {
    if |es| == 0 || |d.glAttributes| >= maxAttributes {
      MainPassStop(es, accessors, maxAttributes, d);
    } else if es[0].semantic.None? {
      MainPassSkipStep(es, accessors, maxAttributes, d);
      MainPassBindsBudgetedPrefix(es[1..], accessors, maxAttributes, d);
    } else if SemanticDefines(es[0].semantic.value, es[0].accessor, accessors).Success? {
      var s := es[0].semantic.value;
      var d' := Bind(d, es[0], s, SemanticDefines(s, es[0].accessor, accessors).value);
      var tail := BoundEntries(es[1..], |d.glAttributes| + 1, maxAttributes);
      MainPassBindStep(es, accessors, maxAttributes, d);
      MainPassBindsBudgetedPrefix(es[1..], accessors, maxAttributes, d');
      assert Descriptors([es[0]] + tail) == [GlAttribute(es[0].key, VariableName(s), es[0].accessor)] + Descriptors(tail) by {
        assert ([es[0]] + tail)[1..] == tail;
      }
    }
  }

  /** The defines the main loop pushes are those of the entries it binds, in
      order: one fixed string per recognised non-POSITION semantic, the
      accessor's type for COLOR_0, none for POSITION and unknown keys. */
  lemma {:induction false} MainPassPushesBoundDefines(
    es: seq<Entry>, accessors: seq<Accessor>, maxAttributes: nat, d: Derived)
    ensures var bound := BoundEntries(es, |d.glAttributes|, maxAttributes);
      var r := MainPass(es, accessors, maxAttributes, d);
      r.Success? ==>
        && ColorsInRange(bound, |accessors|)
        && r.value.defines == d.defines + BoundDefines(bound, accessors)
    decreases |es|
  {
    if |es| == 0 || |d.glAttributes| >= maxAttributes {
      MainPassStop(es, accessors, maxAttributes, d);
    } else if es[0].semantic.None? {
      MainPassSkipStep(es, accessors, maxAttributes, d);
      MainPassPushesBoundDefines(es[1..], accessors, maxAttributes, d);
    } else if SemanticDefines(es[0].semantic.value, es[0].accessor, accessors).Success? {
      var s := es[0].semantic.value;
      var defines := SemanticDefines(s, es[0].accessor, accessors).value;
      var d' := Bind(d, es[0], s, defines);
      MainPassBindStep(es, accessors, maxAttributes, d);
      MainPassPushesBoundDefines(es[1..], accessors, maxAttributes, d');
      var r := MainPass(es[1..], accessors, maxAttributes, d');
      if r.Success? {
        DefinesCons(es[0], BoundEntries(es[1..], |d'.glAttributes|, maxAttributes), accessors, d.defines, r.value.defines);
      }
    }
  }

  /** The defines after binding `e` and then the entries of `tail`. */
  lemma DefinesCons(e: Entry, tail: seq<Entry>, accessors: seq<Accessor>, before: seq<string>, after: seq<string>)
    requires e.semantic.Some? && SemanticDefines(e.semantic.value, e.accessor, accessors).Success?
    requires forall i :: 0 <= i < |tail| ==> tail[i].semantic.Some?
    requires ColorsInRange(tail, |accessors|)
    requires after == before + SemanticDefines(e.semantic.value, e.accessor, accessors).value + BoundDefines(tail, accessors)
    ensures ColorsInRange([e] + tail, |accessors|)
    ensures after == before + BoundDefines([e] + tail, accessors)
  {
    BoundDefinesCons(e, tail, accessors);
    AppendAssociative(before, SemanticDefines(e.semantic.value, e.accessor, accessors).value, BoundDefines(tail, accessors));
  }

  lemma AppendAssociative<T>(a: seq<T>, b: seq<T>, c: seq<T>)
    ensures a + b + c == a + (b + c)
  {
  }

  /** Binding one more recognised entry whose define can be computed. */
  lemma BoundDefinesCons(e: Entry, tail: seq<Entry>, accessors: seq<Accessor>)
    requires e.semantic.Some? && SemanticDefines(e.semantic.value, e.accessor, accessors).Success?
    requires forall i :: 0 <= i < |tail| ==> tail[i].semantic.Some?
    requires ColorsInRange(tail, |accessors|)
    ensures ColorsInRange([e] + tail, |accessors|)
    ensures BoundDefines([e] + tail, accessors) ==
      SemanticDefines(e.semantic.value, e.accessor, accessors).value + BoundDefines(tail, accessors)
  {
    ColorsInRangeCons(e, tail, |accessors|);
    assert ([e] + tail)[1..] == tail;
  }

  /** `skip` is cleared exactly when the main loop binds POSITION, and the
      joint/weight flags are set exactly when it binds a JOINTS_n/WEIGHTS_n. */
  lemma {:induction false} MainPassFlags(es: seq<Entry>, accessors: seq<Accessor>, maxAttributes: nat, d: Derived)
    ensures var bound := Semantics(BoundEntries(es, |d.glAttributes|, maxAttributes));
      var r := MainPass(es, accessors, maxAttributes, d);
      r.Success? ==>
        && r.value.skip == (d.skip && Position !in bound)
        && r.value.hasWeights == (d.hasWeights || Weights0 in bound || Weights1 in bound)
        && r.value.hasJoints == (d.hasJoints || Joints0 in bound || Joints1 in bound)
    decreases |es|
  {
    if |es| == 0 || |d.glAttributes| >= maxAttributes {
      MainPassStop(es, accessors, maxAttributes, d);
    } else if es[0].semantic.None? {
      MainPassSkipStep(es, accessors, maxAttributes, d);
      MainPassFlags(es[1..], accessors, maxAttributes, d);
    } else if SemanticDefines(es[0].semantic.value, es[0].accessor, accessors).Success? {
      var s := es[0].semantic.value;
      var d' := Bind(d, es[0], s, SemanticDefines(s, es[0].accessor, accessors).value);
      var tail := BoundEntries(es[1..], |d.glAttributes| + 1, maxAttributes);
      MainPassBindStep(es, accessors, maxAttributes, d);
      MainPassFlags(es[1..], accessors, maxAttributes, d');
      assert Semantics([es[0]] + tail) == [s] + Semantics(tail) by {
        assert ([es[0]] + tail)[1..] == tail;
      }
    }
  }

  /** Starting within budget, the main loop never binds more than
      `maxAttributes` slots and keeps the slots it started with. */
  lemma {:induction false} MainPassWithinBudget(es: seq<Entry>, accessors: seq<Accessor>, maxAttributes: nat, d: Derived)
    requires |d.glAttributes| <= maxAttributes
    ensures var r := MainPass(es, accessors, maxAttributes, d);
      r.Success? ==>
        && |d.glAttributes| <= |r.value.glAttributes| <= maxAttributes
        && r.value.glAttributes[..|d.glAttributes|] == d.glAttributes
  {
    MainPassBindsBudgetedPrefix(es, accessors, maxAttributes, d);
  }

  // ---------------------------------------------------------------------
  // Morph targets.

  /** Decimal rendering of a target index, as string concatenation does it. */
  function NatToString(n: nat): (s: string)
    ensures |s| > 0
    ensures forall k :: 0 <= k < |s| ==> '0' <= s[k] <= '9'
    decreases n
  {
    var digit := ['0' + (n % 10) as char];
    if n < 10 then digit else NatToString(n / 10) + digit
  }

  /** The stems of the shader input name and define of a morph-target
      semantic: the target switch knows only POSITION, NORMAL and TANGENT. */
  function TargetStems(s: Semantic): Option<(string, string)>
  {
    match s
    case Position => Some(("a_Target_Position", "HAS_TARGET_POSITION"))
    case Normal => Some(("a_Target_Normal", "HAS_TARGET_NORMAL"))
    case Tangent => Some(("a_Target_Tangent", "HAS_TARGET_TANGENT"))
    case _ => None
  }

  /** The entry selects a case of the target switch. */
  predicate IsTargetEntry(e: Entry)
  {
    e.semantic.Some? && TargetStems(e.semantic.value).Some?
  }

  /** The slots target `i` binds, in key order. */
  function TargetBindings(t: seq<Entry>, i: nat): seq<GlAttribute>
  {
    if |t| == 0 then []
    else
      (if IsTargetEntry(t[0])
       then [GlAttribute(t[0].key, TargetStems(t[0].semantic.value).value.0 + NatToString(i), t[0].accessor)]
       else [])
      + TargetBindings(t[1..], i)
  }

  /** The defines target `i` pushes, in key order. */
  function TargetDefines(t: seq<Entry>, i: nat): seq<string>
  {
    if |t| == 0 then []
    else
      (if IsTargetEntry(t[0])
       then [TargetStems(t[0].semantic.value).value.1 + NatToString(i) + " 1"]
       else [])
      + TargetDefines(t[1..], i)
  }

  /** Every slot target `i` binds comes from one of its POSITION, NORMAL or
      TANGENT keys and carries that key's accessor, under the semantic's stem
      suffixed with `i`; the define pushed alongside it is the semantic's
      define stem suffixed with `i`. Other keys bind nothing. */
  lemma {:induction false} TargetBindingsSound(t: AttributeMap, i: nat)
    ensures var gs := TargetBindings(Classify(t), i);
      var ds := TargetDefines(Classify(t), i);
      && |ds| == |gs|
      && (forall k :: 0 <= k < |gs| ==>
            && SemanticOf(gs[k].attribute).Some?
            && TargetStems(SemanticOf(gs[k].attribute).value).Some?
            && (gs[k].attribute, gs[k].accessor) in t
            && gs[k].name == TargetStems(SemanticOf(gs[k].attribute).value).value.0 + NatToString(i)
            && ds[k] == TargetStems(SemanticOf(gs[k].attribute).value).value.1 + NatToString(i) + " 1")
    decreases |t|
  {
    if |t| > 0 {
      TargetBindingsSound(t[1..], i);
      var es := Classify(t);
      assert es[1..] == Classify(t[1..]);
      var rest := TargetBindings(es[1..], i);
      if IsTargetEntry(es[0]) {
        var stems := TargetStems(es[0].semantic.value).value;
        assert TargetBindings(es, i) == [GlAttribute(t[0].0, stems.0 + NatToString(i), t[0].1)] + rest;
        assert TargetDefines(es, i) == [stems.1 + NatToString(i) + " 1"] + TargetDefines(es[1..], i);
        forall k | 0 < k < |TargetBindings(es, i)|
          ensures (TargetBindings(es, i)[k].attribute, TargetBindings(es, i)[k].accessor) in t
        {
          var h := rest[k - 1];
          assert (h.attribute, h.accessor) in t[1..];
        }
      } else {
        assert TargetBindings(es, i) == rest;
        assert TargetDefines(es, i) == TargetDefines(es[1..], i);
      }
    }
  }

  /** Every POSITION, NORMAL or TANGENT key of target `i` is bound, with its
      accessor, under the semantic's stem suffixed with `i`. */
  lemma {:induction false} TargetBindingsComplete(t: AttributeMap, i: nat)
    ensures var gs := TargetBindings(Classify(t), i);
      forall e :: e in t && SemanticOf(e.0).Some? && TargetStems(SemanticOf(e.0).value).Some? ==>
        GlAttribute(e.0, TargetStems(SemanticOf(e.0).value).value.0 + NatToString(i), e.1) in gs
    decreases |t|
  {
    if |t| > 0 {
      TargetBindingsComplete(t[1..], i);
      var es := Classify(t);
      assert es[1..] == Classify(t[1..]);
      var rest := TargetBindings(es[1..], i);
      var gs := TargetBindings(es, i);
      var head := if IsTargetEntry(es[0])
        then [GlAttribute(t[0].0, TargetStems(es[0].semantic.value).value.0 + NatToString(i), t[0].1)]
        else [];
      assert gs == head + rest;
      forall e | e in t && SemanticOf(e.0).Some? && TargetStems(SemanticOf(e.0).value).Some?
        ensures GlAttribute(e.0, TargetStems(SemanticOf(e.0).value).value.0 + NatToString(i), e.1) in gs
      {
        if e != t[0] {
          assert e in t[1..];
        }
      }
    }
  }

  /** The inner loop over the keys of target `i`. */
  function ProcessTarget(d: Derived, t: seq<Entry>, i: nat): Derived
  {
    d.(glAttributes := d.glAttributes + TargetBindings(t, i),
       defines := d.defines + TargetDefines(t, i))
  }

  /** The morph targets as the target switch sees them, key by key. */
  function ClassifyTargets(targets: seq<AttributeMap>): (ts: seq<seq<Entry>>)
    ensures |ts| == |targets|
    ensures forall k :: 0 <= k < |targets| ==> ts[k] == Classify(targets[k])
  {
    seq(|targets|, k requires 0 <= k < |targets| => Classify(targets[k]))
  }

  /** The morph-target loop from target `j` on: a target is processed only
      while three more slots fit; the first that does not ends the loop. */
  function MorphPass(targets: seq<seq<Entry>>, j: nat, maxAttributes: nat, d: Derived): Derived
    requires j <= |targets|
    decreases |targets| - j
  {
    if j == |targets| || |d.glAttributes| + 3 > maxAttributes then d
    else MorphPass(targets, j + 1, maxAttributes, ProcessTarget(d, targets[j], j))
  }

  /** The slots targets `j` up to `p` (exclusive) bind, in order. */
  function TargetsBindings(targets: seq<seq<Entry>>, j: nat, p: nat): seq<GlAttribute>
    requires j <= p <= |targets|
    decreases p - j
  {
    if p == j then [] else TargetsBindings(targets, j, p - 1) + TargetBindings(targets[p - 1], p - 1)
  }

  /** The defines targets `j` up to `p` (exclusive) push, in order. */
  function TargetsDefines(targets: seq<seq<Entry>>, j: nat, p: nat): seq<string>
    requires j <= p <= |targets|
    decreases p - j
  {
    if p == j then [] else TargetsDefines(targets, j, p - 1) + TargetDefines(targets[p - 1], p - 1)
  }

  lemma {:induction false} TargetsBindingsFront(targets: seq<seq<Entry>>, j: nat, p: nat)
    requires j < p <= |targets|
    ensures TargetsBindings(targets, j, p) == TargetBindings(targets[j], j) + TargetsBindings(targets, j + 1, p)
    ensures TargetsDefines(targets, j, p) == TargetDefines(targets[j], j) + TargetsDefines(targets, j + 1, p)
    decreases p - j
  {
    if p > j + 1 {
      TargetsBindingsFront(targets, j, p - 1);
    }
  }

  /** How far the morph loop gets from target `j` with `used` slots taken:
      the index of the first target that does not find three free slots, or
      the number of targets when every one does. */
  function Processed(targets: seq<seq<Entry>>, j: nat, maxAttributes: nat, used: nat): (p: nat)
    requires j <= |targets|
    ensures j <= p <= |targets|
    decreases |targets| - j
  {
    if j == |targets| || used + 3 > maxAttributes then j
    else Processed(targets, j + 1, maxAttributes, used + |TargetBindings(targets[j], j)|)
  }

  /** The morph loop adds exactly the slots and defines of the targets it
      processes, in order, and leaves the flags alone. */
  lemma {:induction false} MorphPassAppends(targets: seq<seq<Entry>>, j: nat, maxAttributes: nat, d: Derived)
    requires j <= |targets|
    ensures var p := Processed(targets, j, maxAttributes, |d.glAttributes|);
      MorphPass(targets, j, maxAttributes, d) ==
        d.(glAttributes := d.glAttributes + TargetsBindings(targets, j, p),
           defines := d.defines + TargetsDefines(targets, j, p))
    decreases |targets| - j
  {
    if j < |targets| && |d.glAttributes| + 3 <= maxAttributes {
      var d' := ProcessTarget(d, targets[j], j);
      var p := Processed(targets, j, maxAttributes, |d.glAttributes|);
      MorphPassAppends(targets, j + 1, maxAttributes, d');
      TargetsBindingsFront(targets, j, p);
      AppendAssociative(d.glAttributes, TargetBindings(targets[j], j), TargetsBindings(targets, j + 1, p));
      AppendAssociative(d.defines, TargetDefines(targets[j], j), TargetsDefines(targets, j + 1, p));
    }
  }

  /** Every target the loop processes found three free slots at its start,
      and the first one it does not process did not. */
  lemma {:induction false} ProcessedHadRoom(targets: seq<seq<Entry>>, j: nat, maxAttributes: nat, used: nat)
    requires j <= |targets|
    ensures var p := Processed(targets, j, maxAttributes, used);
      && (forall k :: j <= k < p ==> used + |TargetsBindings(targets, j, k)| + 3 <= maxAttributes)
      && (p < |targets| ==> used + |TargetsBindings(targets, j, p)| + 3 > maxAttributes)
    decreases |targets| - j
  {
    if j < |targets| && used + 3 <= maxAttributes {
      var used' := used + |TargetBindings(targets[j], j)|;
      var p := Processed(targets, j, maxAttributes, used);
      ProcessedHadRoom(targets, j + 1, maxAttributes, used');
      forall k | j < k <= p
        ensures used + |TargetsBindings(targets, j, k)| == used' + |TargetsBindings(targets, j + 1, k)|
      {
        TargetsBindingsFront(targets, j, k);
      }
    }
  }

  /** The number of entries whose semantic is `s`. */
  function CountSemantic(t: seq<Entry>, s: Semantic): nat
  {
    if |t| == 0 then 0 else (if t[0].semantic == Some(s) then 1 else 0) + CountSemantic(t[1..], s)
  }

  /** A target binds one slot per POSITION, NORMAL or TANGENT entry. */
  lemma {:induction false} TargetBindingsCount(t: seq<Entry>, i: nat)
    ensures |TargetBindings(t, i)| ==
      CountSemantic(t, Position) + CountSemantic(t, Normal) + CountSemantic(t, Tangent)
    decreases |t|
  {
    if |t| > 0 {
      TargetBindingsCount(t[1..], i);
    }
  }

  /** In a map with unique keys each semantic is selected at most once. */
  lemma {:induction false} UniqueSemantics(t: AttributeMap, s: Semantic)
    requires UniqueKeys(t)
    ensures CountSemantic(Classify(t), s) <= 1
    decreases |t|
  {
    if |t| > 0 {
      var es := Classify(t);
      var rest := t[1..];
      assert es[1..] == Classify(rest);
      assert UniqueKeys(rest) by {
        forall a, b | 0 <= a < b < |rest| ensures rest[a].0 != rest[b].0 {
          assert rest[a] == t[a + 1] && rest[b] == t[b + 1];
        }
      }
      UniqueSemantics(rest, s);
      if es[0].semantic == Some(s) {
        NoOtherKeySelects(t, s);
      }
    }
  }

  /** When the first key selects `s`, no later key of a unique-keyed map does. */
  lemma {:induction false} NoOtherKeySelects(t: AttributeMap, s: Semantic)
    requires UniqueKeys(t) && |t| > 0 && SemanticOf(t[0].0) == Some(s)
    ensures CountSemantic(Classify(t[1..]), s) == 0
  {
    var rest := Classify(t[1..]);
    forall k | 0 <= k < |rest| ensures rest[k].semantic != Some(s) {
      assert t[1..][k].0 == t[k + 1].0 != t[0].0;
      SemanticOfInjective(t[0].0, t[k + 1].0);
    }
    NoneSelect(rest, s);
  }

  lemma {:induction false} NoneSelect(t: seq<Entry>, s: Semantic)
    requires forall k :: 0 <= k < |t| ==> t[k].semantic != Some(s)
    ensures CountSemantic(t, s) == 0
    decreases |t|
  {
    if |t| > 0 {
      NoneSelect(t[1..], s);
    }
  }

  /** Distinct keys select distinct cases of the switch. */
  lemma SemanticOfInjective(a: string, b: string)
    requires a != b && SemanticOf(a).Some?
    ensures SemanticOf(b) != SemanticOf(a)
  {
  }

  /** With unique keys a target binds at most one slot per target semantic. */
  lemma TargetBindsAtMostThree(t: AttributeMap, i: nat)
    requires UniqueKeys(t)
    ensures |TargetBindings(Classify(t), i)| <= 3
  {
    TargetBindingsCount(Classify(t), i);
    UniqueSemantics(t, Position);
    UniqueSemantics(t, Normal);
    UniqueSemantics(t, Tangent);
  }

  /** Starting within budget, the morph loop never takes the slot count
      above `maxAttributes` when no target binds more than three slots
      (which unique keys guarantee, by `TargetBindsAtMostThree`). */
  lemma MorphPassWithinBudget(targets: seq<seq<Entry>>, j: nat, maxAttributes: nat, d: Derived)
    requires j <= |targets|
    requires |d.glAttributes| <= maxAttributes
    requires forall k :: 0 <= k < |targets| ==> |TargetBindings(targets[k], k)| <= 3
    ensures |MorphPass(targets, j, maxAttributes, d).glAttributes| <= maxAttributes
  {
    var p := Processed(targets, j, maxAttributes, |d.glAttributes|);
    assert |MorphPass(targets, j, maxAttributes, d).glAttributes| == |d.glAttributes| + |TargetsBindings(targets, j, p)| by {
      MorphPassAppends(targets, j, maxAttributes, d);
    }
    if p > j {
      ProcessedHadRoom(targets, j, maxAttributes, |d.glAttributes|);
    }
  }
}
