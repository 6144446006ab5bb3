/** The definition under construction (`llb.Definition`): an append-only list
    of serialised ops and a metadata table keyed by digest. */
module Graph {
  import opened Ops

  const AlpineImage: string :=
    "docker-image://docker.io/library/alpine:latest@sha256:c5b1261d6d3e43071626931fc004f70149baeba2c8ec672bd4f27761f8e1ad6b"
  const SourceImageCap: CapID := "source.image"

  /** The op and metadata of one layer: a fresh empty pair with every
      modifier applied in order. */
  function BuildLayer(codec: Codec, prior: seq<Bytes>, opts: seq<OpOpt>): Draft
    requires Applicable(opts, prior)
  {
    ApplyAll(codec, prior, opts, Draft(EmptyOp, EmptyMetadata))
  }

  /** `dg` is the digest of one of the entries of `prior`. */
  ghost predicate RefersBack(codec: Codec, dg: Digest, prior: seq<Bytes>)
  {
    exists j :: 0 <= j < |prior| && codec.fromBytes(prior[j]) == dg
  }

  /** The digests of the entries of `def`. */
  function Digests(codec: Codec, def: seq<Bytes>): set<Digest>
  {
    set i | 0 <= i < |def| :: codec.fromBytes(def[i])
  }

  class Definition {
    /** The serialiser and digest algorithm the entries are built with. */
    const codec: Codec
    /** `Def`: the serialised ops, in the order they were added. */
    var def: seq<Bytes>
    /** `Metadata`: metadata keyed by the digest of an entry. */
    var metadata: map<Digest, OpMetadata>
    /** The ops that `def` serialises. */
    ghost var ops: seq<Op>

    /** Every entry serialises its op, every entry's digest and nothing else
        keys the metadata, and every input names an EARLIER entry, so the
        graph has no forward edge and no cycle. */
    ghost predicate Valid()
      reads this
    {
      && |ops| == |def|
      && (forall i | 0 <= i < |def| :: def[i] == codec.marshal(ops[i]))
      && metadata.Keys == Digests(codec, def)
      && (forall i, k | 0 <= i < |ops| && 0 <= k < |ops[i].inputs| ::
            RefersBack(codec, ops[i].inputs[k].digest, def[..i]))
    }

    /** `&llb.Definition{}` with `Metadata` made empty. */
    constructor (codec: Codec)
      ensures Valid() && this.codec == codec
      ensures def == [] && metadata == map[] && ops == []
    {
      this.codec := codec;
      def := [];
      metadata := map[];
      ops := [];
    }

    /** `addLayer`: builds one op from a fresh empty op and metadata, appends
        its bytes and files its metadata under their digest. */
    method AddLayer(opts: seq<OpOpt>)
      requires Valid()
      requires Applicable(opts, def)
      modifies this
      ensures Valid()
      ensures var layer := BuildLayer(codec, old(def), opts);
        var bytes := codec.marshal(layer.op);
        && ops == old(ops) + [layer.op]
        && def == old(def) + [bytes]
        && metadata == old(metadata)[codec.fromBytes(bytes) := layer.md]
      ensures |def| == |old(def)| + 1 && def[..|old(def)|] == old(def)
      ensures forall dg | dg in old(metadata) && dg != codec.fromBytes(def[|def| - 1]) ::
        dg in metadata && metadata[dg] == old(metadata)[dg]
    {
      var draft := Draft(EmptyOp, EmptyMetadata);
      for i := 0 to |opts|
        invariant Applicable(opts[i..], def)
        invariant ApplyAll(codec, def, opts[i..], draft) == BuildLayer(codec, def, opts)
      {
        assert opts[i..][1..] == opts[i + 1..];
        draft := Apply(codec, def, opts[i], draft);
      }
      assert opts[|opts|..] == [];
      InputsLinkPrev(codec, def, opts, Draft(EmptyOp, EmptyMetadata));

      var dt := codec.marshal(draft.op);
      var n := |def|;
      def := def + [dt];
      var dgst := codec.fromBytes(dt);
      metadata := metadata[dgst := draft.md];
      ops := ops + [draft.op];

      assert Digests(codec, def) == Digests(codec, old(def)) + {dgst} by {
        forall dg | dg in Digests(codec, def) ensures dg in Digests(codec, old(def)) + {dgst} {
          var i :| 0 <= i < |def| && codec.fromBytes(def[i]) == dg;
          if i < n { assert def[i] == old(def)[i]; }
        }
        forall dg | dg in Digests(codec, old(def)) ensures dg in Digests(codec, def) {
          var i :| 0 <= i < n && codec.fromBytes(old(def)[i]) == dg;
          assert def[i] == old(def)[i];
        }
        assert def[n] == dt;
      }
      forall i, k | 0 <= i < |ops| && 0 <= k < |ops[i].inputs|
        ensures RefersBack(codec, ops[i].inputs[k].digest, def[..i])
      {
        if i < n {
          assert def[..i] == old(def)[..i];
          assert ops[i] == old(ops)[i];
        } else {
          assert def[..i][n - 1] == def[n - 1];
        }
      }
    }
  }

  /** The op of the first layer of `getLLB`: the pinned alpine image. */
  const SourceLayer: Op := Op(Source(AlpineImage), [])

  /** `getLLB`: a two-layer chain. Layer 0 is the alpine source op, needing
      capability "source.image"; layer 1 has no payload and one input, output 0
      of layer 0, and empty metadata. Layer 0's metadata survives unless its
      digest equals layer 1's, which would overwrite it. */
  method GetLLB(codec: Codec) returns (d: Definition)
    ensures fresh(d) && d.Valid() && d.codec == codec
    ensures d.ops == [SourceLayer, Op(NoPayload, [Input(codec.fromBytes(codec.marshal(SourceLayer)), 0)])]
    ensures |d.def| == 2
    ensures d.metadata.Keys == {codec.fromBytes(d.def[0]), codec.fromBytes(d.def[1])}
    ensures d.metadata[codec.fromBytes(d.def[1])] == EmptyMetadata
    ensures codec.fromBytes(d.def[0]) != codec.fromBytes(d.def[1]) ==>
      d.metadata[codec.fromBytes(d.def[0])] == OpMetadata(map[], map[SourceImageCap := true])
  {
    d := new Definition(codec);
    var first := [SourceOpt(AlpineImage), CapOpt(SourceImageCap)];
    var rest := [CapOpt(SourceImageCap)];
    assert first[1..] == rest && rest[1..] == [];
    assert PrevLinks(rest) == 0;
    var empty := Draft(EmptyOp, EmptyMetadata);
    var afterSource := Apply(codec, [], first[0], empty);
    assert afterSource == Draft(SourceLayer, EmptyMetadata);
    assert BuildLayer(codec, [], first) == ApplyAll(codec, [], rest, afterSource);
    assert ApplyAll(codec, [], rest, afterSource) == Apply(codec, [], rest[0], afterSource);
    assert BuildLayer(codec, [], first) == Draft(SourceLayer, OpMetadata(map[], map[SourceImageCap := true]));
    d.AddLayer(first);
    var d0 := d.def;
    assert BuildLayer(codec, d0, [InputFromPrev])
      == Draft(Op(NoPayload, [Input(codec.fromBytes(d0[0]), 0)]), EmptyMetadata);
    d.AddLayer([InputFromPrev]);
    assert d.def[0] == codec.marshal(SourceLayer);
  }
}
