/** Operations of the build graph (LLB ops), their side-table metadata, and the
    modifiers ("options") that fill in a fresh op/metadata pair before it is
    serialised into a definition. */
module Ops {

  /** Serialised bytes of an op. */
  type Bytes = seq<bv8>
  /** Content digest of serialised bytes ("sha256:..."). */
  type Digest = string
  /** Name of a backend capability, such as "source.image". */
  type CapID = string

  /** Binds input `input` of an exec to the filesystem path `dest`; the
      mount's result is output `output` of the op. */
  datatype Mount = Mount(input: int, dest: string, output: int)

  /** The `Op` oneof of an op: unset, a source locator, or an exec directive. */
  datatype Payload =
    | NoPayload
    | Source(identifier: string)
    | Exec(args: seq<string>, cwd: string, mounts: seq<Mount>)

  /** An edge of the graph: output `index` of the op whose bytes have `digest`. */
  datatype Input = Input(digest: Digest, index: int)

  datatype Op = Op(payload: Payload, inputs: seq<Input>)

  /** Metadata kept beside an op, keyed by its digest and not part of it.
      A Go nil map and an empty map read alike, so both are the empty map. */
  datatype OpMetadata = OpMetadata(description: map<string, string>, caps: map<CapID, bool>)

  /** Protobuf serialisation of an op and the digest of a byte string. Both are
      uninterpreted: the model relies only on their being functions, that is,
      on equal inputs giving equal outputs. */
  datatype Codec = Codec(marshal: Op -> Bytes, fromBytes: Bytes -> Digest)

  /** The op/metadata pair that the modifiers of one layer work on. */
  datatype Draft = Draft(op: Op, md: OpMetadata)

  const EmptyOp: Op := Op(NoPayload, [])
  const EmptyMetadata: OpMetadata := OpMetadata(map[], map[])

  const ShellPath: string := "bin/sh"
  const DockerfileCommandKey: string := "com.docker.dockerfile.v1.command"
  const CustomNameKey: string := "llb.customname"

  /** The modifiers `source`, `exec`, `desc`, `cap` and `inputFromPrev`. */
  datatype OpOpt =
    | SourceOpt(name: string)
    | ExecOpt(cmd: string)
    | DescOpt(text: string)
    | CapOpt(cap: CapID)
    | InputFromPrev

  /** Number of `InputFromPrev` modifiers in `opts`. */
  function PrevLinks(opts: seq<OpOpt>): nat
  {
    if opts == [] then 0
    else (if opts[0].InputFromPrev? then 1 else 0) + PrevLinks(opts[1..])
  }

  /** `inputFromPrev` indexes the last entry of the definition, which panics
      when there is none; callers never do that. */
  predicate Applicable(opts: seq<OpOpt>, prior: seq<Bytes>)
  {
    |prior| > 0 || PrevLinks(opts) == 0
  }

  /** The digest that `inputFromPrev` links to: that of the last entry. */
  function PrevDigest(codec: Codec, prior: seq<Bytes>): Digest
    requires |prior| > 0
  {
    codec.fromBytes(prior[|prior| - 1])
  }

  function ExecPayload(cmd: string): Payload
  {
    Exec([ShellPath, "-c", cmd], "/", [Mount(0, "/", 0)])
  }

  function DescriptionOf(text: string): map<string, string>
  {
    map[DockerfileCommandKey := text, CustomNameKey := text]
  }

  /** `source(name)`: sets the payload to a source op; nothing else changes. */
  function WithSource(d: Draft, name: string): (r: Draft)
    ensures r.op.payload.Source? && r.op.payload.identifier == name
    ensures r.op.inputs == d.op.inputs && r.md == d.md
  {
    d.(op := d.op.(payload := Source(name)))
  }

  /** `exec(cmd)`: sets the payload to `bin/sh -c cmd` run in "/" with input 0
      mounted at "/"; nothing else changes. */
  function WithExec(d: Draft, cmd: string): (r: Draft)
    ensures r.op.payload.Exec?
    ensures r.op.payload.args == [ShellPath, "-c", cmd] && r.op.payload.cwd == "/"
    ensures r.op.payload.mounts == [Mount(0, "/", 0)]
    ensures r.op.inputs == d.op.inputs && r.md == d.md
  {
    d.(op := d.op.(payload := ExecPayload(cmd)))
  }

  /** `desc(text)`: replaces the whole description map by one holding `text`
      under the two well-known keys; the op and the capabilities are kept. */
  function WithDesc(d: Draft, text: string): (r: Draft)
    ensures r.md.description.Keys == {DockerfileCommandKey, CustomNameKey}
    ensures forall k | k in r.md.description :: r.md.description[k] == text
    ensures r.op == d.op && r.md.caps == d.md.caps
  {
    d.(md := d.md.(description := DescriptionOf(text)))
  }

  /** `cap(name)`: sets capability `name` to true and keeps every other one. */
  function WithCap(d: Draft, name: CapID): (r: Draft)
    ensures r.md.caps.Keys == d.md.caps.Keys + {name}
    ensures r.md.caps[name]
    ensures forall c | c in d.md.caps && c != name :: r.md.caps[c] == d.md.caps[c]
    ensures r.op == d.op && r.md.description == d.md.description
  {
    d.(md := d.md.(caps := d.md.caps[name := true]))
  }

  /** `inputFromPrev`: appends one input, at output index 0, on the last entry
      of the definition as it stands when the modifier runs. */
  function WithInputFromPrev(d: Draft, codec: Codec, prior: seq<Bytes>): (r: Draft)
    requires |prior| > 0
    ensures |r.op.inputs| == |d.op.inputs| + 1
    ensures r.op.inputs[..|d.op.inputs|] == d.op.inputs
    ensures r.op.inputs[|d.op.inputs|] == Input(codec.fromBytes(prior[|prior| - 1]), 0)
    ensures r.op.payload == d.op.payload && r.md == d.md
  {
    d.(op := d.op.(inputs := d.op.inputs + [Input(PrevDigest(codec, prior), 0)]))
  }

  /** One call `do(proto, metadata)`. */
  function Apply(codec: Codec, prior: seq<Bytes>, opt: OpOpt, d: Draft): Draft
    requires opt.InputFromPrev? ==> |prior| > 0
  {
    match opt
    case SourceOpt(name) => WithSource(d, name)
    case ExecOpt(cmd) => WithExec(d, cmd)
    case DescOpt(text) => WithDesc(d, text)
    case CapOpt(name) => WithCap(d, name)
    case InputFromPrev => WithInputFromPrev(d, codec, prior)
  }

  /** The modifiers applied one after another, first to last, to `d`. */
  function ApplyAll(codec: Codec, prior: seq<Bytes>, opts: seq<OpOpt>, d: Draft): (r: Draft)
    requires Applicable(opts, prior)
    ensures |r.op.inputs| == |d.op.inputs| + PrevLinks(opts)
    decreases |opts|
  {
    if opts == [] then d
    else ApplyAll(codec, prior, opts[1..], Apply(codec, prior, opts[0], d))
  }

  predicate SetsPayload(o: OpOpt)
  {
    o.SourceOpt? || o.ExecOpt?
  }

  function PayloadSetBy(o: OpOpt): Payload
    requires SetsPayload(o)
  {
    if o.SourceOpt? then Source(o.name) else ExecPayload(o.cmd)
  }

  /** Modifiers that set no payload leave the payload alone. */
  lemma {:induction false} PayloadUntouched(codec: Codec, prior: seq<Bytes>, opts: seq<OpOpt>, d: Draft)
    requires Applicable(opts, prior)
    requires forall j | 0 <= j < |opts| :: !SetsPayload(opts[j])
    ensures ApplyAll(codec, prior, opts, d).op.payload == d.op.payload
  {
    if opts != [] {
      assert !SetsPayload(opts[0]);
      PayloadUntouched(codec, prior, opts[1..], Apply(codec, prior, opts[0], d));
    }
  }

  /** `source` and `exec` both assign the payload, so the last of them applied
      decides it. */
  lemma {:induction false} LastPayloadWins(codec: Codec, prior: seq<Bytes>, opts: seq<OpOpt>, d: Draft, i: nat)
    requires Applicable(opts, prior)
    requires i < |opts| && SetsPayload(opts[i])
    requires forall j | i < j < |opts| :: !SetsPayload(opts[j])
    ensures ApplyAll(codec, prior, opts, d).op.payload == PayloadSetBy(opts[i])
  {
    var d' := Apply(codec, prior, opts[0], d);
    if i == 0 {
      PayloadUntouched(codec, prior, opts[1..], d');
    } else {
      LastPayloadWins(codec, prior, opts[1..], d', i - 1);
    }
  }

  /** Modifiers other than `desc` leave the description alone. */
  lemma {:induction false} DescriptionUntouched(codec: Codec, prior: seq<Bytes>, opts: seq<OpOpt>, d: Draft)
    requires Applicable(opts, prior)
    requires forall j | 0 <= j < |opts| :: !opts[j].DescOpt?
    ensures ApplyAll(codec, prior, opts, d).md.description == d.md.description
  {
    if opts != [] {
      assert !opts[0].DescOpt?;
      DescriptionUntouched(codec, prior, opts[1..], Apply(codec, prior, opts[0], d));
    }
  }

  /** `desc` replaces the description map wholesale, so the last one wins. */
  lemma {:induction false} LastDescriptionWins(codec: Codec, prior: seq<Bytes>, opts: seq<OpOpt>, d: Draft, i: nat)
    requires Applicable(opts, prior)
    requires i < |opts| && opts[i].DescOpt?
    requires forall j | i < j < |opts| :: !opts[j].DescOpt?
    ensures ApplyAll(codec, prior, opts, d).md.description == DescriptionOf(opts[i].text)
  {
    var d' := Apply(codec, prior, opts[0], d);
    if i == 0 {
      DescriptionUntouched(codec, prior, opts[1..], d');
    } else {
      LastDescriptionWins(codec, prior, opts[1..], d', i - 1);
    }
  }

  /** The capability names that `cap` modifiers in `opts` set. */
  function CapsNamed(opts: seq<OpOpt>): set<CapID>
  {
    if opts == [] then {}
    else (if opts[0].CapOpt? then {opts[0].cap} else {}) + CapsNamed(opts[1..])
  }

  /** After all modifiers the capabilities are the initial ones plus every name
      a `cap` set, each of those true, and the others unchanged. */
  lemma {:induction false} CapsAccumulate(codec: Codec, prior: seq<Bytes>, opts: seq<OpOpt>, d: Draft)
    requires Applicable(opts, prior)
    ensures var caps := ApplyAll(codec, prior, opts, d).md.caps;
      && caps.Keys == d.md.caps.Keys + CapsNamed(opts)
      && (forall c | c in CapsNamed(opts) :: caps[c])
      && (forall c | c in d.md.caps && c !in CapsNamed(opts) :: caps[c] == d.md.caps[c])
  {
    if opts != [] {
      var d' := Apply(codec, prior, opts[0], d);
      CapsAccumulate(codec, prior, opts[1..], d');
    }
  }

  /** `cap(name)` applied twice is `cap(name)` applied once. */
  lemma CapIdempotent(d: Draft, name: CapID)
    ensures WithCap(WithCap(d, name), name) == WithCap(d, name)
  {
  }

  /** The inputs after all modifiers are the initial ones followed by one link
      to the last prior entry, at output index 0, per `inputFromPrev`. */
  lemma {:induction false} InputsLinkPrev(codec: Codec, prior: seq<Bytes>, opts: seq<OpOpt>, d: Draft)
    requires Applicable(opts, prior)
    ensures var ins := ApplyAll(codec, prior, opts, d).op.inputs;
      && |ins| == |d.op.inputs| + PrevLinks(opts)
      && ins[..|d.op.inputs|] == d.op.inputs
      && (forall k | |d.op.inputs| <= k < |ins| :: |prior| > 0 && ins[k] == Input(PrevDigest(codec, prior), 0))
  {
    if opts != [] {
      var d' := Apply(codec, prior, opts[0], d);
      InputsLinkPrev(codec, prior, opts[1..], d');
      var ins := ApplyAll(codec, prior, opts, d).op.inputs;
      assert ins == ApplyAll(codec, prior, opts[1..], d').op.inputs;
      if opts[0].InputFromPrev? {
        assert d'.op.inputs == d.op.inputs + [Input(PrevDigest(codec, prior), 0)];
        assert ins[..|d.op.inputs|] == ins[..|d'.op.inputs|][..|d.op.inputs|];
      } else {
        assert d'.op.inputs == d.op.inputs;
      }
    }
  }
}
