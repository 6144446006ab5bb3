# kolto frontend core, modelled in Dafny

A model of the sequential core of a small BuildKit frontend (`main.go`). The model has three parts:

- **Operation-graph builder** (`ops.dfy`, module `Ops`; `graph.dfy`, module `Graph`).
  - `addLayer` starts from an empty op and empty metadata. It applies the modifiers `source`, `exec`, `desc`, `cap` and `inputFromPrev` in order, serialises the op, and appends the bytes to the definition's `Def` list. It then files the metadata under the digest of those bytes.
  - `getLLB` uses `addLayer` to build a two-layer chain.
  - The definition is the class `Graph.Definition`. It has a `seq` of byte strings and a `map` from digest to metadata.
  - Its invariant `Valid()` says three things: each entry serialises its op, the metadata keys are exactly the digests of the entries, and every input refers to an earlier entry. So the graph cannot contain a forward edge or a cycle.
  - Protobuf serialisation and `digest.FromBytes` are the two uninterpreted functions of a `Codec` value. The model relies only on their being functions, so equal inputs give equal bytes and digests (determinism).
- **Artifact line extraction** (`poem.dfy`, module `Poem`).
  - Picks the artifact's file name.
  - Splits the file content on `"\n"` with a model of `strings.Split` and drops the first piece (the header).
  - `Split` is proved against its inverse `Join`, in both directions.
- **History synthesis** (`history.dfy`, module `History`).
  - The history of the image record is replaced outright.
  - The lines are reversed in place, as `slices.Reverse` does.
  - One empty-layer entry is appended per reversed line. Entry `i` is stamped `i` seconds before `now`.

Three behaviours of the code worth stating plainly:

- The reversal puts the **last** content line at index 0 of the history, stamped `now`; the first content line is the oldest entry (`History.NewestIsLastLine`).
- `json.Marshal` returns nil bytes on error, so the `bytes != nil` guard in `Build` (main.go:84-88) lets an encoding failure pass silently. Encoding is not part of this model (see below).
- A header followed by a newline (`"H\n"`) yields one empty line. Only a header without any newline yields no lines (`Poem.HeaderOnly`).

## Model

| member | source | states |
|---|---|---|
| `Ops.WithSource` | main.go:159-167 | `source(name)` sets the payload to a source op with identifier `name`; inputs and metadata are unchanged |
| `Ops.WithExec` | main.go:121-139 | `exec(cmd)` sets the payload to args `["bin/sh", "-c", cmd]`, cwd `/`, one mount of input 0 at `/` with output 0; inputs and metadata are unchanged |
| `Ops.WithDesc` | main.go:141-148 | `desc(text)` replaces the description map by one with exactly the keys `com.docker.dockerfile.v1.command` and `llb.customname`, both mapped to `text`; the op and capabilities are unchanged |
| `Ops.WithCap` | main.go:150-157 | `cap(name)` adds `name` to the capability keys with value true; every other capability keeps its value; the op and description are unchanged |
| `Ops.WithInputFromPrev` | main.go:112-119 | `inputFromPrev` appends exactly one input, whose digest is that of the last entry of `Def` at application time and whose index is 0; earlier inputs, the payload and the metadata are unchanged; it needs `Def` non-empty (the source indexes `len-1`) |
| `Ops.ApplyAll` | main.go:172-174 | applying the modifiers in order adds one input per `inputFromPrev` modifier |
| `Ops.PayloadUntouched` | main.go:172-174 | modifiers other than `source` and `exec` never change the payload |
| `Ops.LastPayloadWins` | main.go:170-174 | when `source` and `exec` modifiers are mixed, the payload is the one set by the last of them |
| `Ops.DescriptionUntouched` | main.go:172-174 | modifiers other than `desc` never change the description |
| `Ops.LastDescriptionWins` | main.go:141-148 | the description is the one written by the last `desc` modifier |
| `Ops.CapsAccumulate` | main.go:150-157 | after all modifiers, the capability keys are the initial ones plus every name given to `cap`; each of those is true and every other capability keeps its value |
| `Ops.CapIdempotent` | main.go:150-157 | applying `cap(name)` twice equals applying it once |
| `Ops.InputsLinkPrev` | main.go:112-119 | after all modifiers, the inputs are the initial ones followed by one input per `inputFromPrev`, each pointing at the digest of the last entry of `Def`, at index 0 |
| `Graph.Definition.constructor` | main.go:96-97 | a new definition has no entries and empty metadata, and satisfies the invariant |
| `Graph.Definition.AddLayer` | main.go:169-185 | appends exactly one entry: the serialised op built by applying all modifiers in order to an empty op and empty metadata; earlier entries are unchanged; the metadata is stored under the digest of the new entry and every other key is untouched; the no-forward-reference invariant is kept |
| `Graph.GetLLB` | main.go:95-108 | produces exactly two entries; the first is the pinned alpine source op with no inputs; the second has no payload and one input, index 0, on the digest of the first; the metadata has exactly those two digests as keys; the second's metadata is empty; the first's capabilities are exactly {`source.image`} unless the two digests collide |
| `Poem.FileName` | main.go:190-193 | the file name is the `file` option when it is present and non-empty, and `Poem` otherwise; it is never empty |
| `Poem.Split` | main.go:227 | splitting on a one-character separator never returns an empty list |
| `Poem.SplitCount` | main.go:227 | the number of pieces is the number of separators plus one |
| `Poem.SplitPiecesFree` | main.go:227 | no piece contains the separator |
| `Poem.JoinSplit` | main.go:227 | joining the pieces with the separator gives back the original string |
| `Poem.SplitFree` | main.go:227 | a string without the separator is a single piece |
| `Poem.SplitCons` | main.go:227 | a separator-free prefix followed by the separator becomes the first piece; the rest is split on its own |
| `Poem.SplitJoin` | main.go:227 | splitting the join of a non-empty list of separator-free pieces gives the list back |
| `Poem.JoinSnoc` | main.go:227 | helper for `Poem.SplitTrailing`, about the inverse `Join` of the split: joining a list with one more piece appends the separator and that piece |
| `Poem.SplitTrailing` | main.go:227 | a trailing separator adds exactly one empty last piece |
| `Poem.PoemLines` | main.go:227-228 | the returned lines number exactly the newlines in the content, and none contains a newline |
| `Poem.HeaderDropped` | main.go:227-228 | for content `header + "\n" + body` with a newline-free header, the lines are exactly the split of `body`; the header is dropped |
| `Poem.HeaderOnly` | main.go:227-228 | empty content, or a header without a newline, yields no lines; a header followed by one newline yields one empty line |
| `Poem.TrailingNewline` | main.go:227-228 | a trailing newline adds exactly one trailing empty line |
| `Poem.PoemRoundTrip` | main.go:227-228 | a header joined with newline-free lines reads back as exactly those lines |
| `History.ReverseInPlace` | main.go:73 | the array afterwards holds its old contents in reverse order |
| `History.Synthesized` | main.go:71-81 | everything in the image but the history is kept; the history has one entry per line; entry `i` is labelled with line `n-1-i`, is an empty layer, and is stamped `now - i` seconds |
| `History.SynthesizeHistory` | main.go:71-81 | the lines array ends up reversed, and the returned image is the one `Synthesized` describes for the original lines |
| `History.TimestampsDecrease` | main.go:74-75 | timestamps strictly decrease along the history |
| `History.NewestIsLastLine` | main.go:73-81 | the first entry is the last content line, stamped `now`; the last entry is the first content line, stamped `n-1` seconds earlier |
| `History.PriorHistoryDiscarded` | main.go:71 | the result does not depend on the history the image had before |
| `History.ArtifactHistory` | main.go:71-81 | for content made of a header and newline-free lines, the history has one entry per line; the entries are empty layers labelled with those lines in reverse order |

## Left out

- `main` (main.go:22-38) is left out: the `llb` dump mode, `llb.WriteTo` to standard output and the `grpcclient.RunFromEnvironment` bootstrap. These are process-entry and I/O plumbing.
- Backend round-trips are foreign gRPC calls and are left out: `c.Solve`, `res.SingleRef`, `ref.ReadFile`, `res.SetRef`, `res.AddMeta` and `c.BuildOpts` (main.go:52-63, 90, 188, 207-225). Their results become parameters instead: the build options map (`Poem.FileName`), the file content (`Poem.PoemLines`) and the decoded image record (`History.SynthesizeHistory`). Their error returns are therefore not modelled.
- The graph built with `llb.Local(...)` and `src.Marshal` in `ReadPoem` (main.go:195-205) is left out. It is built by BuildKit library internals.
- JSON decoding and encoding of `specs.Image` (main.go:65-69, 83-90) is left out. The model starts from a decoded image record, whose non-history fields are an abstract `rest`. Two consequences: the ignored decode error is not represented, and neither is the guard that lets an encode failure pass silently.
- Protobuf serialisation and SHA-256 digests are uninterpreted functions (`Ops.Codec`), so their internals are not modelled. A failure of `proto.Marshal` (a panic in `addLayer`) is not represented either: the model's serialiser is total.
- Go nil maps are not distinguished from empty maps, because reads behave the same on both. The nil check in `cap` therefore collapses into the map insertion.
- `inputFromPrev` captures a pointer to a definition. The model reads the definition that the layer is being added to, which is the only way the source uses it.
- Both `History.Synthesized` and `History.SynthesizeHistory` take one `now` as a parameter. The source calls `time.Now()` again on every iteration, so its timestamps are also shifted by the time each iteration takes.
- History.Synthesized: does not model the 64-bit `time.Duration` overflow of `-ix * time.Second`, which needs more than 9.2 billion lines.
- The `Author` and `Comment` fields of a history entry are not represented. `Build` always leaves them empty.
- Graph.GetLLB: states the first layer's capabilities only when the two layers' digests differ. With equal digests, the second layer's empty metadata would overwrite the first's in the table, exactly as in the source.
- Ops.WithInputFromPrev: requires a non-empty `Def`. With an empty one, the source indexes `Def[len(Def)-1]` (main.go:115) and panics with an index out of range; that panic is not modelled. The precondition holds wherever the source uses the modifier: `getLLB` (main.go:105) adds it only after a first layer has been appended.
