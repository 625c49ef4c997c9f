# Cue3 job-spec compiler, modelled in Dafny

outline's Cue3 backend (`pyoutline/src/outline/backend/cue3.py`) turns an
outline (a job made of layers, each with a frame range, a command, resource
options and dependency edges) into the XML job specification the Cue3
scheduler accepts. This project models that compiler:

- `build_command`: the token list a render node runs for one layer (strace
  prefix, frame wrapper, pycuerun, script, version, repos, `--dev` flags);
- `scrub_tags`, `bool_to_str` and `subElement`;
- `buildDependencies`: one `<depend>` record per dependency edge, with a
  `%04d-<layer>` frame reference for `LayerOnSimFrame` edges, and the error
  raised when such a target lists no frame;
- `serialize`: the header (facility, show, shot, user, e-mail, uid), the
  `<job>` settings and pre-setshot environment, the layer loop with its three
  skips (unregistered, child, empty range), the `<layer>` elements, the
  trailing `<depends>` block, the "no launchable layers" failure, and the
  fixed XML prolog.

Files:

- `wrappers.dfy`: `Option` and `Result`.
- `text.dfy`: the Python string operations the compiler relies on:
  `split`, `join`, `strip`, `isalnum`, `%d` and `%04d`.
- `xml.dfy`: the ElementTree elements. An `Element` is a value. An
  `ElementNode` is an element whose list of children grows in place.
  `Tagged` is `findall` on a list of children.
- `outline.dfy`: what the compiler reads: `Outline`, `Layer`, `Depend`,
  `EnvEntry`, the launcher options and the ambient `Context`.
  - `Context` holds the configuration, the versions, the current user and
    the `OL_OS` and `OL_TAG_OVERRIDE` environment variables.
  - A dependency edge names its target by its index among the outline's
    layers.
- `cue3.dfy`: the operations.
  - The imperative methods mirror the Python. They are `BuildCommand`,
    `BuildDependencies`, `WriteHeader`, `WriteJobSettings`, `BuildJobHead`, `WriteEnv`,
    `BuildLayer`, `CompileAll` and `Serialize`.
  - Each method is proved equal to a specification function over its
    inputs: `CommandTokens`, `DependsWritten`, `HeaderElements`,
    `JobSettings`, `EnvKeys`, `LayerElement`, `CompileLayers` and
    `SpecDocument`.
- `cue3_properties.dfy`: what those functions promise. It covers:
  - which layers are submitted and in what order;
  - when serialize fails and with which error;
  - the shape of every record;
  - the idempotence of `scrub_tags`;
  - the round trip of the `onframe` reference.

`buildDependencies` (cue3.py:272) runs after the three `continue`s of the
layer loop, so a skipped layer adds no `<depend>` records: the `<depends>`
block holds the edges of submitted layers only
(`Cue3Properties.SerializeDocument`).

## Model

| member | source | states |
|---|---|---|
| Cue3.BoolToStr | pyoutline/src/outline/backend/cue3.py:300-307 | the result is "True" or "False", and it is "True" exactly when the value is true |
| Cue3.SubElement | pyoutline/src/outline/backend/cue3.py:336-340 | the parent gains exactly one new last child: a childless element with the given tag and text, which is also returned |
| Cue3.ScrubPiecesSpec | pyoutline/src/outline/backend/cue3.py:295-297 | kept word k is the stripped piece at kept index k and is alphanumeric. The kept indices strictly increase and include every piece that strips to an alphanumeric word. So the output is exactly those stripped pieces, in input order, repetitions kept |
| Cue3Properties.ScrubJoined | pyoutline/src/outline/backend/cue3.py:295-298 | alphanumeric words joined with " \| " split and scrub back to exactly those words |
| Cue3Properties.ScrubTagsResplit | pyoutline/src/outline/backend/cue3.py:291-298 | splitting scrub_tags' output on `\|` and scrubbing it again gives the same words as scrubbing the input |
| Cue3Properties.ScrubTagsIdempotent | pyoutline/src/outline/backend/cue3.py:291-298 | scrub_tags applied to its own output on a tag string changes nothing |
| Cue3.CommandTokensLayout | pyoutline/src/outline/backend/cue3.py:51-85 | the command has 7 tokens, plus 8 with strace, plus one each for dev and devuser. Position by position: the strace flags and log path, the wrapper (the `wrapper` argument, else the setshot wrapper unless setshot is false), user_dir, pycuerun, the script with `#IFRAME#` and the layer name, version, repos, `--debug`, `--dev`, `--dev-user` |
| Cue3.BuildCommand | pyoutline/src/outline/backend/cue3.py:38-85 | the list built one append at a time is the command whose layout CommandTokensLayout states |
| Cue3.FrameRefRoundTrip | pyoutline/src/outline/backend/cue3.py:327-328 | the `onframe` text `%04d-<layer>` reads back as the frame and the layer name it was made from, for every frame, negative ones included |
| Cue3Properties.FrameRefPadded | pyoutline/src/outline/backend/cue3.py:327-328 | frame 5 of layer "render" is written "0005-render" |
| Cue3Properties.FrameRefNegativeFrame | pyoutline/src/outline/backend/cue3.py:327-328 | frame -5 is written with its sign ahead of the padding: "-005-sim" |
| Cue3Properties.FrameRefWide | pyoutline/src/outline/backend/cue3.py:327-328 | a five-digit frame is not truncated: "12345-comp" |
| Cue3.BuildDepend | pyoutline/src/outline/backend/cue3.py:314-334 | one edge fails exactly when it is a LayerOnSimFrame edge whose target lists no frame. Then the record is the bare `<depend>` and the error names the layer and its target. Otherwise the record is the edge's full record |
| Cue3Properties.DependRecordShape | pyoutline/src/outline/backend/cue3.py:316-334 | a record carries the edge's type and anyframe (`bool_to_str` of the flag, "True" iff any-frame), then depjob, deplayer and onjob. It ends with onframe holding `FrameRef` of the target's first frame and name, which reads back as those two; for other edge types it ends with onlayer holding the target's name |
| Cue3.DependRecordsIndex | pyoutline/src/outline/backend/cue3.py:314-334 | record k of a layer's records is the record of its edge k |
| Cue3.BuildDependencies | pyoutline/src/outline/backend/cue3.py:309-334 | the records appended to the `<depends>` block and the error returned are those DependsWritten gives for the layer; nothing in the block before the call changes |
| Cue3.DependsWrittenAll | pyoutline/src/outline/backend/cue3.py:314-334 | when every edge resolves, every edge gets its record, in edge order, and there is no error |
| Cue3.DependsWrittenStops | pyoutline/src/outline/backend/cue3.py:320-323 | the first edge that cannot be resolved ends the layer. The records before it stand, its bare `<depend>` follows, and the error names the layer and its target |
| Cue3Properties.DependsWrittenOk | pyoutline/src/outline/backend/cue3.py:314-334 | a layer's dependencies are written without error exactly when every edge resolves |
| Cue3Properties.DependsWrittenRecords | pyoutline/src/outline/backend/cue3.py:314-334 | without an error there is one record per edge, and record k is the record of edge k |
| Cue3Properties.DependsWrittenFailure | pyoutline/src/outline/backend/cue3.py:320-323 | with an error there is a first failing edge i, with every edge before it resolving. i + 1 elements were written, and the error names the layer and edge i's target |
| Cue3.KeptIndicesSpec | pyoutline/src/outline/backend/cue3.py:220-238 | the submitted indices are in range, in strictly increasing order, each of a registered root layer with a non-empty range, and every such layer's index is among them |
| Cue3.KeptLayersIndex | pyoutline/src/outline/backend/cue3.py:220-238 | submitted layer k is the outline's layer at submitted index k |
| Cue3.EnvKeysSpec | pyoutline/src/outline/backend/cue3.py:211-217 | every `<key>` comes from a pre-setshot entry, and every pre-setshot entry has its `<key name=k>v</key>` |
| Cue3.EnvKeysOnce | pyoutline/src/outline/backend/cue3.py:212-217 | when the entries' keys are distinct, as a dictionary's are, no `<key>` is written twice: each pre-setshot entry yields exactly one |
| Cue3.WriteEnv | pyoutline/src/outline/backend/cue3.py:211-217 | the loop appends to `<env>` exactly the keys EnvKeysSpec describes |
| Cue3.WriteHeader | pyoutline/src/outline/backend/cue3.py:186-196 | the children appended to `<spec>` are the header elements whose fields HeaderFields states |
| Cue3Properties.HeaderFields | pyoutline/src/outline/backend/cue3.py:186-196 | facility, show and shot come first and uid last. There is exactly one `<user>`: the `user` flag when truthy, else the current user. There is an `<email>` to user@domain exactly when nomail is unset |
| Cue3.WriteJobSettings | pyoutline/src/outline/backend/cue3.py:199-209 | the children appended to `<job>` are the settings whose fields JobSettingsFields states |
| Cue3.BuildJobHead | pyoutline/src/outline/backend/cue3.py:198-217 | a fresh `<job name=…>` holding the job settings and then `<env>` with the pre-setshot keys |
| Cue3Properties.JobSettingsFields | pyoutline/src/outline/backend/cue3.py:199-209 | paused, maxretries and autoeat come first, as `str` of the options. There is one `<localbook>` carrying the hint's attributes when there is one. There is one `<os>`: the os option, else OL_OS, else none |
| Cue3.WriteLayerOptions | pyoutline/src/outline/backend/cue3.py:248-263 | the children appended are the layer's set options, in order: cores, threadable, memory, tags |
| Cue3Properties.LayerOptionsTagged | pyoutline/src/outline/backend/cue3.py:248-263 | among the options, each of cores, threadable, memory and tags occurs once when set and not at all otherwise |
| Cue3Properties.LayerChildrenTagged | pyoutline/src/outline/backend/cue3.py:240-270 | any tag other than cmd, range, chunk and services is found in a `<layer>` only among its options |
| Cue3Properties.LayerOptionalFields | pyoutline/src/outline/backend/cue3.py:252-263 | `<threadable>` ("True"/"False") appears exactly when the argument is set, and `<memory>` exactly when it is set. `<tags>` is scrubbed OL_TAG_OVERRIDE when that is set, else the layer's scrubbed tags when truthy, else absent |
| Cue3Properties.LayerFixedFields | pyoutline/src/outline/backend/cue3.py:240-270 | a `<layer>` is named and typed after the layer, starts with cmd (the command joined by spaces), range and chunk, and ends with `<services>` holding exactly one `<service>` |
| Cue3.BuildLayer | pyoutline/src/outline/backend/cue3.py:240-270 | the element built in place is the `<layer>` LayerFixedFields and LayerOptionalFields describe |
| Cue3.ServiceName | pyoutline/src/outline/backend/cue3.py:266-270 | a layer without a service gets "default" |
| Cue3Properties.ServiceFirstToken | pyoutline/src/outline/backend/cue3.py:268 | the service text is the part before the first comma (the whole service when there is no comma), stripped |
| Cue3Properties.ServiceSingle | pyoutline/src/outline/backend/cue3.py:268 | a single service " shell " is written "shell" |
| Cue3Properties.ServiceNameClean | pyoutline/src/outline/backend/cue3.py:268 | the service text holds no comma and has no whitespace at either end |
| Cue3.CompileLayer | pyoutline/src/outline/backend/cue3.py:220-272 | one pass of the loop: a skipped layer changes nothing. A submitted layer appends its `<layer>` and its records, or fails with its dependency error |
| Cue3.CompileAll | pyoutline/src/outline/backend/cue3.py:219-272 | the loop over all layers leaves `<layers>` and `<depends>` as CompileLayers gives them, or returns the error CompileLayers fails with |
| Cue3.CompileFailureSticks | pyoutline/src/outline/backend/cue3.py:272 | once a layer fails, the loop fails with that error whatever layers follow |
| Cue3Properties.CompileLayersOk | pyoutline/src/outline/backend/cue3.py:219-272 | the loop succeeds exactly when every submitted layer's edges all resolve |
| Cue3Properties.CompileStepKept | pyoutline/src/outline/backend/cue3.py:240-272 | a submitted layer that gets through adds its `<layer>` and its records to those of the layers before it |
| Cue3Properties.CompileStepSkipped | pyoutline/src/outline/backend/cue3.py:222-238 | a skipped layer adds nothing |
| Cue3Properties.CompileLayersValue | pyoutline/src/outline/backend/cue3.py:219-272 | on success, `<layers>` holds the `<layer>` of each submitted layer in declaration order, and `<depends>` holds their records, layer after layer |
| Cue3Properties.CompileLayersFailure | pyoutline/src/outline/backend/cue3.py:219-272 | on failure, the error is that of the first submitted layer whose edges do not all resolve |
| Cue3Properties.SerializeOutcome | pyoutline/src/outline/backend/cue3.py:274-277 | serialize succeeds exactly when every submitted layer's edges resolve and at least one layer is submitted. It fails with "no launchable layers" exactly when all resolve and none is submitted. Otherwise it fails with a NoFrameToDependOn error |
| Cue3Properties.SerializeDocument | pyoutline/src/outline/backend/cue3.py:170-289 | a returned document is the fixed XML declaration and DOCTYPE, then `<spec>` built from the `<layer>` elements of the submitted layers and from their dependency records |
| Cue3Properties.LayersOfSubmitted | pyoutline/src/outline/backend/cue3.py:240-242 | `<layers>` holds only `<layer>` elements, one per submitted layer, in order, each named and typed after its layer |
| Cue3Properties.SpecRootShape | pyoutline/src/outline/backend/cue3.py:186-280 | `<spec>` holds the header, then `<job>` (settings, `<env>`, `<layers>`), then `<depends>` as its last child |
| Cue3.Serialize | pyoutline/src/outline/backend/cue3.py:170-289 | the document built in place equals SpecDocument, including the error raised |
| Text.SplitJoinRoundTrip | pyoutline/src/outline/backend/cue3.py:296 | joining the pieces of `split(sep)` with sep gives the string back |
| Text.StripPadded | pyoutline/src/outline/backend/cue3.py:296-297 | a word with whitespace around it strips to the word |
| Text.ZeroPad4Shape | pyoutline/src/outline/backend/cue3.py:328 | `%04d` is `str` of the number widened to four characters by zeros after the sign, and left as it is when already four or more wide |
| Text.ZeroPad4Value | pyoutline/src/outline/backend/cue3.py:328 | `%04d` of a frame is its sign and then digits whose value is the frame's magnitude |
| Text.IntToDecimalValue | pyoutline/src/outline/backend/cue3.py:196 | `str` of an integer is its sign and then digits whose value is its magnitude, with no leading zero except for zero itself |

## Left out

- launch, wait and test (cue3.py:87-168): they submit the job and poll the scheduler over the network, which a proof model does not reach.
- Rendering to text: the model stops at the element tree. `Et.tostring` (the attribute order and escaping of the XML text) and the `toprettyxml` debug log are not modelled.
- Lookups become inputs:
  - `config`, `versions`, `util` and `os.environ` are fields of `Context`;
  - `get_frame_range`, `FileSequence.FrameSet` and `get_chunk_size` are fields of `Layer`;
  - `frames` is the list the frame library gives for the target's range.
- The `"%0.1f"` of the threads argument and the `"%s"` of memory are inputs. `Layer.cores` and `Layer.memory` are the texts already formatted; floating point is not modelled.
- `str()` of the pause and autoeat options is modelled for booleans only (`BoolToStr`). Other values these options might hold are not modelled.
- `bool_to_str` on `threadable` is modelled for a boolean argument only.
- Python 2 byte-string semantics: `isalnum` and `strip` are modelled over ASCII letters, digits and whitespace. Locale-dependent classes are not modelled.
- The outline's environment is a dictionary iterated in an unspecified order. The model takes that order as the order of a sequence whose keys `WellFormed` requires to be distinct, and its lemmas state which keys appear and that each appears once, not their order.
- Cue3.ServiceName: the `except Exception` around the service is modelled for a layer without a service, which gets "default". Other exceptions from `get_service` are not modelled.
- Cue3.BuildDependencies: an empty frame set makes `FrameSet(...)[0]` raise `IndexError`. This is modelled as the `NoFrameToDependOn` error returned to serialize. The bare `<depend>` already appended is modelled, but the exception's type and message are not.
- Element identity: Python attaches each child to its parent first and fills it afterwards. The model fills a child and then appends it. Nothing reads the tree in between, so the result is the same tree; aliasing of elements is not modelled.
- Layer objects are addressed by index. A dependency edge holds the index of the layer it targets, and `WellFormed` requires every such index to be in range, as a Python object reference always is.
- A layer's `frames` are an input beside its `frameRange`. `WellFormed` ties them only as far as a layer without a range lists no frames; that the frames are exactly those of the range is up to the frame library, which is not part of this model.
- The `logger.info` message for a layer skipped because its range does not intersect the job's (cue3.py:235-237) is not modelled; logging has no effect on the document.
- `str(launcher.get("maxretries"))` (cue3.py:200) is modelled for an integer option only; an unset option, which Python writes as "None", is not covered.
