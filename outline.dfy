/**
 * What the job-spec compiler reads: the outline (a job with its layers and
 * environment), the launcher's options, and the values it looks up in the
 * site configuration, the version registry and the process environment.
 * Layers live in one sequence; a parent link and a dependency edge name a
 * layer by its index in it.
 */
module Outline {
  import opened Wrappers

  /** The value of `DependType.LayerOnSimFrame`, the frame-precise dependency type. */
  const LAYER_ON_SIM_FRAME: string := "LayerOnSimFrame"

  /** A dependency edge of a layer: its type, its any-frame flag and the index of the layer depended on. */
  datatype Depend = Depend(dependType: string, anyFrame: bool, onLayer: nat)

  /** A layer's `tags` argument: one `|`-separated string, or a list of tags. */
  datatype Tags = TagString(s: string) | TagList(items: seq<string>)

  /**
   * A layer as the compiler sees it. Optional arguments are `None` when
   * `get_arg` gives nothing truthy, except `threadable` (set or not, as
   * `is_arg_set` tells) and `setshot` (absent when not given).
   */
  datatype Layer = Layer(
    name: string,
    layerType: string,
    path: string,               // get_path()
    register: bool,             // get_arg("register")
    parent: Option<nat>,        // get_parent()
    frameRange: Option<string>, // get_frame_range(): the layer's range intersected with the job's
    frames: seq<int>,           // the frames the frame library lists for that range
    chunk: int,                 // get_chunk_size()
    cores: Option<string>,      // "%0.1f" of the threads argument, when it is truthy
    threadable: Option<bool>,
    memory: Option<string>,     // "%s" of the memory argument, when it is truthy
    tags: Option<Tags>,
    service: Option<string>,    // get_service()
    strace: bool,
    wrapper: Option<string>,
    setshot: Option<bool>,
    depends: seq<Depend>)

  /** One entry `key -> (value, flag)` of the outline's environment; the flag marks it pre-setshot. */
  datatype EnvEntry = EnvEntry(key: string, value: string, preSetshot: bool)

  /** The outline: its name, its script path, its frame range text, its layers, its environment, its localbook hint. */
  datatype Outline = Outline(
    name: string,
    path: string,
    frameRange: string,
    layers: seq<Layer>,
    env: seq<EnvEntry>,
    localbook: map<string, string>)

  /** The launcher options serialize and build_command read. */
  datatype Launcher = Launcher(
    facility: Option<string>,
    shot: Option<string>,
    user: Option<string>,
    nomail: bool,
    pause: bool,
    maxRetries: int,
    autoEat: bool,
    os: Option<string>,
    dev: bool,
    devUser: Option<string>)

  /**
   * The ambient values: configuration (`wrapper_dir`, `user_dir`, `bin_dir`,
   * `domain`), versions (the outline version and the repos), the current
   * user, uid and show, and the `OL_OS` and `OL_TAG_OVERRIDE` environment variables.
   */
  datatype Context = Context(
    wrapperDir: string,
    userDir: string,
    binDir: string,
    domain: string,
    version: string,
    repos: string,
    user: string,
    uid: int,
    show: string,
    olOs: Option<string>,
    tagOverride: Option<string>)

  /** Python truthiness of an optional string. */
  predicate Truthy(o: Option<string>) {
    o.Some? && o.value != ""
  }

  /** Every dependency edge of `layer` names a layer of `ol`. */
  predicate TargetsIn(ol: Outline, layer: Layer) {
    forall k :: 0 <= k < |layer.depends| ==> layer.depends[k].onLayer < |ol.layers|
  }

  /** A layer lists frames only when it has a range, since its frames are those of that range. */
  predicate FramesOfRange(layer: Layer) {
    !Truthy(layer.frameRange) ==> layer.frames == []
  }

  /** No two entries share a key, as in the dictionary the environment comes from. */
  predicate DistinctKeys(entries: seq<EnvEntry>) {
    forall i, j :: 0 <= i < j < |entries| ==> entries[i].key != entries[j].key
  }

  /**
   * Every dependency edge in the outline names one of its layers (in Python,
   * an edge holds the layer object itself), every layer's frames come from
   * its range, and the environment holds each key once.
   */
  predicate WellFormed(ol: Outline) {
    && (forall i :: 0 <= i < |ol.layers| ==> TargetsIn(ol, ol.layers[i]) && FramesOfRange(ol.layers[i]))
    && DistinctKeys(ol.env)
  }
}
