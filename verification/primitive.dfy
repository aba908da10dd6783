/** `gltfPrimitive.initGl` and `getShaderIdentifier` (src/primitive.js):
    the per-primitive GPU-binding pass that defaults the material, splices
    in Draco-decoded positions, and assigns vertex-attribute slots, shader
    defines and flags for the main attributes and the morph targets. */
module PrimitiveInit {
  import opened Wrappers
  import opened Entities
  import opened Attributes
  import opened Draco
  import Loader

  /** The primitive carries a KHR_draco_mesh_compression extension. */
  predicate HasDraco(p: Primitive)
  {
    p.extensions.Some? && p.extensions.value.draco.Some?
  }

  /** The document after the Draco step: decoded when the extension is
      present (its true/false result is discarded), untouched otherwise. */
  function DracoStep(p: Primitive, doc: Document, codec: DracoOutcome): Result<Document, InitError>
  {
    if HasDraco(p) then
      var outcome :- DecodeDraco(p.attributes, p.extensions.value.draco.value, doc, codec);
      Success(outcome.1)
    else Success(doc)
  }

  /** The main attribute entries the primitive's attribute map classifies into. */
  function Entries(p: Primitive): seq<Entry>
  {
    Classify(p.attributes)
  }

  /** The main-loop entries the primitive binds, under the slot budget. */
  function Bound(p: Primitive, maxAttributes: nat): (b: seq<Entry>)
    ensures forall i :: 0 <= i < |b| ==> b[i].semantic.Some?
  {
    BoundEntries(Entries(p), |p.derived.glAttributes|, maxAttributes)
  }

  /** The two loops of `initGl` over the document's accessors as they are
      after the Draco step: the main attribute loop, then the morph-target
      loop, both under the slot budget `maxAttributes`. */
  function BindAttributes(p: Primitive, accessors: seq<Accessor>, maxAttributes: nat): Result<Derived, InitError>
  {
    var main :- MainPass(Entries(p), accessors, maxAttributes, p.derived);
    Success(MorphPass(ClassifyTargets(p.targets), 0, maxAttributes, main))
  }

  /** `initGl`: `maxAttributes` stands for the context's MAX_VERTEX_ATTRIBS
      and `codec` for what the Draco decoder reports. The pass touches only
      the primitive's material and derived fields, and only the buffers,
      buffer views and accessors of the document. */
  function InitGl(p: Primitive, doc: Document, maxAttributes: nat, codec: DracoOutcome)
    : (r: Result<(Primitive, Document), InitError>)
    // a missing material becomes the last one, a given one is kept
    ensures r.Success? ==>
      r.value.0.material == if p.material.Some? then p.material else Some(|doc.materials| - 1)
    // nothing of the glTF primitive but the material changes
    ensures r.Success? ==> r.value.0.(material := p.material, derived := p.derived) == p
    // the document changes only through the Draco splice
    ensures r.Success? ==>
      r.value.1.(buffers := doc.buffers, bufferViews := doc.bufferViews, accessors := doc.accessors) == doc
    ensures r.Success? ==> |r.value.1.accessors| == |doc.accessors|
    ensures r.Success? && !HasDraco(p) ==> r.value.1 == doc
    // with the extension, the document is the one the Draco splice returns
    ensures r.Success? && HasDraco(p) ==>
      var decoded := DecodeDraco(p.attributes, p.extensions.value.draco.value, doc, codec);
      decoded.Success? && r.value.1 == decoded.value.1
    // the derived fields are what the loops make of the spliced accessors
    ensures r.Success? ==> BindAttributes(p, r.value.1.accessors, maxAttributes) == Success(r.value.0.derived)
  {
    var material := if p.material.Some? then p.material else Some(|doc.materials| - 1);
    var after :- DracoStep(p, doc, codec);
    var derived :- BindAttributes(p, after.accessors, maxAttributes);
    Success((p.(material := material, derived := derived), after))
  }

  /** `initGl` throws exactly when the Draco step throws or a bound COLOR_0
      names an accessor the document does not have. */
  lemma InitGlFails(p: Primitive, doc: Document, maxAttributes: nat, codec: DracoOutcome)
    ensures InitGl(p, doc, maxAttributes, codec).Failure? <==>
      || DracoStep(p, doc, codec).Failure?
      || !ColorsInRange(Bound(p, maxAttributes), |doc.accessors|)
  {
    var step := DracoStep(p, doc, codec);
    if step.Success? {
      assert |step.value.accessors| == |doc.accessors|;
      MainPassFails(Entries(p), step.value.accessors, maxAttributes, p.derived);
    }
  }

  /** The slots the loops add: the budgeted main entries, then those of the
      morph targets the loop gets through (see `Processed`). */
  lemma BindAttributesSlots(p: Primitive, accessors: seq<Accessor>, maxAttributes: nat)
    ensures var r := BindAttributes(p, accessors, maxAttributes);
      r.Success? ==>
        var targets := ClassifyTargets(p.targets);
        var bound := Bound(p, maxAttributes);
        var processed := Processed(targets, 0, maxAttributes, |p.derived.glAttributes| + |bound|);
        r.value.glAttributes == p.derived.glAttributes + Descriptors(bound) + TargetsBindings(targets, 0, processed)
  {
    var r := BindAttributes(p, accessors, maxAttributes);
    if r.Success? {
      var main := MainPass(Entries(p), accessors, maxAttributes, p.derived).value;
      var targets := ClassifyTargets(p.targets);
      assert r.value == MorphPass(targets, 0, maxAttributes, main);
      assert main.glAttributes == p.derived.glAttributes + Descriptors(Bound(p, maxAttributes)) by {
        MainPassBindsBudgetedPrefix(Entries(p), accessors, maxAttributes, p.derived);
      }
      assert r.value.glAttributes ==
        main.glAttributes + TargetsBindings(targets, 0, Processed(targets, 0, maxAttributes, |main.glAttributes|)) by {
        MorphPassAppends(targets, 0, maxAttributes, main);
      }
    }
  }

  /** The defines the loops push: those of the bound main entries, then
      those of the processed morph targets, in order. */
  lemma BindAttributesDefines(p: Primitive, accessors: seq<Accessor>, maxAttributes: nat)
    ensures var r := BindAttributes(p, accessors, maxAttributes);
      r.Success? ==>
        var targets := ClassifyTargets(p.targets);
        var bound := Bound(p, maxAttributes);
        var processed := Processed(targets, 0, maxAttributes, |p.derived.glAttributes| + |bound|);
        ColorsInRange(bound, |accessors|) &&
        r.value.defines == p.derived.defines + BoundDefines(bound, accessors) + TargetsDefines(targets, 0, processed)
  {
    var r := BindAttributes(p, accessors, maxAttributes);
    if r.Success? {
      var main := MainPass(Entries(p), accessors, maxAttributes, p.derived).value;
      var targets := ClassifyTargets(p.targets);
      var bound := Bound(p, maxAttributes);
      assert r.value == MorphPass(targets, 0, maxAttributes, main);
      assert |main.glAttributes| == |p.derived.glAttributes| + |bound| by {
        MainPassBindsBudgetedPrefix(Entries(p), accessors, maxAttributes, p.derived);
      }
      assert ColorsInRange(bound, |accessors|) && main.defines == p.derived.defines + BoundDefines(bound, accessors) by {
        MainPassPushesBoundDefines(Entries(p), accessors, maxAttributes, p.derived);
      }
      assert r.value.defines == main.defines + TargetsDefines(targets, 0, Processed(targets, 0, maxAttributes, |main.glAttributes|)) by {
        MorphPassAppends(targets, 0, maxAttributes, main);
      }
    }
  }

  /** `skip` stays set exactly when no POSITION is bound by the main loop
      (a morph-target POSITION does not count), and the joint and weight
      flags are raised exactly when a JOINTS_n or WEIGHTS_n is bound. */
  lemma BindAttributesFlags(p: Primitive, accessors: seq<Accessor>, maxAttributes: nat)
    ensures var r := BindAttributes(p, accessors, maxAttributes);
      var bound := Semantics(Bound(p, maxAttributes));
      r.Success? ==>
        && r.value.skip == (p.derived.skip && Position !in bound)
        && r.value.hasWeights == (p.derived.hasWeights || Weights0 in bound || Weights1 in bound)
        && r.value.hasJoints == (p.derived.hasJoints || Joints0 in bound || Joints1 in bound)
  {
    var main := MainPass(Entries(p), accessors, maxAttributes, p.derived);
    MainPassFlags(Entries(p), accessors, maxAttributes, p.derived);
    if main.Success? {
      MorphPassAppends(ClassifyTargets(p.targets), 0, maxAttributes, main.value);
    }
  }

  /** A freshly constructed primitive whose targets have unique keys ends
      `initGl` with at most `maxAttributes` slots, and is drawn (not
      skipped) exactly when its main loop bound a POSITION. */
  lemma InitGlWithinBudget(p: Primitive, doc: Document, maxAttributes: nat, codec: DracoOutcome)
    requires p.derived == InitialDerived
    requires forall k :: 0 <= k < |p.targets| ==> UniqueKeys(p.targets[k])
    ensures var r := InitGl(p, doc, maxAttributes, codec);
      r.Success? ==>
        && |r.value.0.derived.glAttributes| <= maxAttributes
        && (!r.value.0.derived.skip <==> Position in Semantics(Bound(p, maxAttributes)))
  {
    var r := InitGl(p, doc, maxAttributes, codec);
    if r.Success? {
      var accessors := r.value.1.accessors;
      var main := MainPass(Entries(p), accessors, maxAttributes, p.derived);
      BindAttributesFlags(p, accessors, maxAttributes);
      MainPassWithinBudget(Entries(p), accessors, maxAttributes, p.derived);
      var targets := ClassifyTargets(p.targets);
      forall k | 0 <= k < |targets| ensures |TargetBindings(targets[k], k)| <= 3 {
        TargetBindsAtMostThree(p.targets[k], k);
      }
      MorphPassWithinBudget(targets, 0, maxAttributes, main.value);
    }
  }

  /** Loading then initialising: a primitive authored without a material
      ends up pointing at the default material the loader appended. */
  lemma LoadedPrimitiveUsesDefaultMaterial(
    path: string, json: Loader.GltfJson, p: Primitive, maxAttributes: nat, codec: DracoOutcome)
    requires p.material.None?
    ensures var loaded := Loader.FromJson(path, json);
      loaded.Success? && InitGl(p, loaded.value, maxAttributes, codec).Success? ==>
        var q := InitGl(p, loaded.value, maxAttributes, codec).value;
        && q.0.material.Some?
        && 0 <= q.0.material.value < |q.1.materials|
        && q.1.materials[q.0.material.value] == DefaultMaterial
  {
  }

  /** Every primitive is drawn with the same vertex shader, whatever its
      attributes: the defines, not the shader file, carry the differences. */
  function ShaderIdentifier(p: Primitive): (id: string)
    ensures |id| > 5 && id[|id| - 5..] == ".vert"
  {
    "primitive.vert"
  }

  /** Any two primitives report the same vertex shader, `primitive.vert`. */
  lemma ShaderIdentifierIsShared(p: Primitive, q: Primitive)
    ensures ShaderIdentifier(p) == ShaderIdentifier(q) == "primitive.vert"
  {
  }
}
