/** `gltfPrimitive.decodeDraco` (src/primitive.js): decoding a
    KHR_draco_mesh_compression payload and splicing the decoded positions
    into the document as one new buffer, one new buffer view and a
    redirected POSITION accessor. The codec itself is an oracle. */
module Draco {
  import opened Wrappers
  import opened Entities

  /** What the Draco decoder reports for the compressed bytes of a primitive. */
  datatype DracoOutcome =
      /** the encoded geometry is not a triangular mesh: no status is produced */
    | NotTriangularMesh
      /** the decode status is not ok */
    | DecodeFailed
      /** fetching the POSITION floats for all points fails */
    | PositionFetchFailed
      /** decoding succeeded and yielded `floatCount` float components */
    | Decoded(floatCount: nat)

  /** The new buffer view's index and offset, for the POSITION accessor. */
  function Redirect(a: Accessor, view: nat): Accessor
  {
    a.(byteOffset := 0, bufferView := Some(view))
  }

  /** The decode either throws (Failure), reports failure with the document
      untouched (false), or succeeds (true) with the splice made. */
  function DecodeDraco(attributes: AttributeMap, ext: DracoExtension, doc: Document, codec: DracoOutcome)
    : (r: Result<(bool, Document), InitError>)
    // failures reported as false leave the document as it was
    ensures r.Success? && !r.value.0 ==> r.value.1 == doc
    ensures r.Success? && !r.value.0 <==>
      && ext.bufferView < |doc.bufferViews|
      && doc.bufferViews[ext.bufferView].buffer < |doc.buffers|
      && (codec.DecodeFailed? || codec.PositionFetchFailed?)
    // the splice happens exactly when every lookup succeeds and the codec decodes
    ensures r.Success? && r.value.0 <==>
      && ext.bufferView < |doc.bufferViews|
      && doc.bufferViews[ext.bufferView].buffer < |doc.buffers|
      && codec.Decoded?
      && Lookup(attributes, "POSITION").Some?
      && Lookup(attributes, "POSITION").value < |doc.accessors|
    ensures r.Success? && r.value.0 ==>
      var n := codec.floatCount;
      var position := Lookup(attributes, "POSITION").value;
      var after := r.value.1;
      // one buffer appended, holding 4 bytes per float
      && |after.buffers| == |doc.buffers| + 1
      && after.buffers[..|doc.buffers|] == doc.buffers
      && after.buffers[|doc.buffers|].byteLength == 4 * n
      // one buffer view appended, over the whole new buffer
      && |after.bufferViews| == |doc.bufferViews| + 1
      && after.bufferViews[..|doc.bufferViews|] == doc.bufferViews
      && after.bufferViews[|doc.bufferViews|].buffer == |doc.buffers|
      && after.bufferViews[|doc.bufferViews|].byteLength == 4 * n
      // only the POSITION accessor changes, and only its view and offset
      && |after.accessors| == |doc.accessors|
      && after.accessors[position] == Redirect(doc.accessors[position], |doc.bufferViews|)
      && (forall k :: 0 <= k < |doc.accessors| && k != position ==> after.accessors[k] == doc.accessors[k])
      // nothing else in the document changes
      && after.(buffers := doc.buffers, bufferViews := doc.bufferViews, accessors := doc.accessors) == doc
  {
    if ext.bufferView >= |doc.bufferViews| then Failure(BufferViewOutOfRange(ext.bufferView))
    else
      var view := doc.bufferViews[ext.bufferView];
      if view.buffer >= |doc.buffers| then Failure(BufferOutOfRange(view.buffer))
      else
        match codec
        case NotTriangularMesh => Failure(UnsupportedGeometry)
        case DecodeFailed => Success((false, doc))
        case PositionFetchFailed => Success((false, doc))
        case Decoded(n) =>
          var buffers := doc.buffers + [Buffer(4 * n)];
          var bufferViews := doc.bufferViews + [BufferView(|buffers| - 1, 0, 4 * n)];
          match Lookup(attributes, "POSITION")
          case None => Failure(MissingPositionAttribute)
          case Some(position) =>
            if position >= |doc.accessors| then Failure(AccessorOutOfRange(position))
            else
              var accessors := doc.accessors[position := Redirect(doc.accessors[position], |bufferViews| - 1)];
              Success((true, doc.(buffers := buffers, bufferViews := bufferViews, accessors := accessors)))
  }
}
