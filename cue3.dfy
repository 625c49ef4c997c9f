/**
 * The Cue3 backend of outline: it turns an outline into the XML job
 * specification the Cue3 scheduler accepts.
 *
 * `BuildCommand` gives the command a render node runs for one layer,
 * `BuildDependencies` writes the `<depend>` records of one layer, and
 * `Serialize` walks the layers once and assembles the whole `<spec>`
 * document. Each of these methods is proved equal to a function over the
 * inputs (`CommandTokens`, `DependsWritten`, `SpecDocument`); the lemmas in
 * module Cue3Properties say what those functions promise.
 */
module Cue3 {
  import opened Wrappers
  import opened Text
  import opened Xml
  import opened Outline

  const XML_DECLARATION: string := "<?xml version=\"1.0\"?>"
  const DOCTYPE: string :=
    "<!DOCTYPE spec PUBLIC \"SPI Cue  Specification Language\" \"http://localhost:8080/spcue/dtd/cjsl-1.8.dtd\">"

  /** What serialize produces: the two fixed prolog lines and the `<spec>` element written after them. */
  datatype JobSpec = JobSpec(declaration: string, doctype: string, root: Element)

  /** Why serialize raises. */
  datatype SerializeError =
    | NoLaunchableLayers(jobRange: string)               // no layer survived the filters
    | NoFrameToDependOn(layer: string, onLayer: string)  // a LayerOnSimFrame target lists no frame

  // ---------------------------------------------------------------- helpers

  /** `bool_to_str`: "True" for a true value, "False" otherwise (also what `str` gives for a bool). */
  function BoolToStr(value: bool): (r: string)
    ensures r == "True" || r == "False"
    ensures r == "True" <==> value
  {
    if value then "True" else "False"
  }

  /** `subElement`: appends to `root` a childless element with the given text, and returns it. */
  method SubElement(root: ElementNode, tag: string, text: Option<string>) returns (e: Element)
    modifies root
    ensures e == Leaf(tag, text)
    ensures root.children == old(root.children) + [e]
  {
    e := Leaf(tag, text);
    root.Append(e);
  }

  /** The pieces of a split tag string that `scrub_tags` keeps: each stripped, and only when alphanumeric. */
  function ScrubPieces(pieces: seq<string>): (r: seq<string>)
    ensures |r| <= |pieces|
  {
    if |pieces| == 0 then []
    else
      var head := if IsAlnum(Strip(pieces[0])) then [Strip(pieces[0])] else [];
      head + ScrubPieces(pieces[1..])
  }

  /** Every index one further on. */
  function Shifted(idx: seq<nat>): (r: seq<nat>)
    ensures |r| == |idx|
    ensures forall k :: 0 <= k < |idx| ==> r[k] == idx[k] + 1
  {
    seq(|idx|, k requires 0 <= k < |idx| => idx[k] + 1)
  }

  /** The indices of the pieces `ScrubPieces` keeps, in input order. */
  function ScrubIndices(pieces: seq<string>): (idx: seq<nat>)
    ensures |idx| == |ScrubPieces(pieces)|
  {
    if |pieces| == 0 then []
    else
      var rest := ScrubIndices(pieces[1..]);
      (if IsAlnum(Strip(pieces[0])) then [0] else []) + Shifted(rest)
  }

  /** Kept word `k` is the stripped piece at kept index `k`, and it is alphanumeric. */
  lemma {:induction false} ScrubPiecesAt(pieces: seq<string>)
    ensures forall k :: 0 <= k < |ScrubPieces(pieces)| ==>
      && ScrubIndices(pieces)[k] < |pieces|
      && ScrubPieces(pieces)[k] == Strip(pieces[ScrubIndices(pieces)[k]])
      && IsAlnum(ScrubPieces(pieces)[k])
  {
    if |pieces| > 0 {
      var tail := pieces[1..];
      ScrubPiecesAt(tail);
      var rest := ScrubPieces(tail);
      var restIdx := ScrubIndices(tail);
      var keep := IsAlnum(Strip(pieces[0]));
      var h := if keep then 1 else 0;
      var r := ScrubPieces(pieces);
      var idx := ScrubIndices(pieces);
      assert r == (if keep then [Strip(pieces[0])] else []) + rest;
      assert idx == (if keep then [0] else []) + Shifted(restIdx);
      forall k | 0 <= k < |r|
        ensures idx[k] < |pieces| && r[k] == Strip(pieces[idx[k]]) && IsAlnum(r[k])
      {
        if k >= h {
          assert r[k] == rest[k - h] && idx[k] == restIdx[k - h] + 1;
          assert pieces[restIdx[k - h] + 1] == tail[restIdx[k - h]];
        }
      }
    }
  }

  predicate Increasing(idx: seq<nat>) {
    forall k, m :: 0 <= k < m < |idx| ==> idx[k] < idx[m]
  }

  /** Shifting keeps indices increasing, and an index 0 in front of the shifted ones does too. */
  lemma ShiftedIncreasing(idx: seq<nat>)
    requires Increasing(idx)
    ensures Increasing(Shifted(idx)) && Increasing([0] + Shifted(idx))
  {
    var s := Shifted(idx);
    forall k, m | 0 <= k < m < |[0] + s|
      ensures ([0] + s)[k] < ([0] + s)[m]
    {
      assert ([0] + s)[m] == s[m - 1];
      if k > 0 {
        assert ([0] + s)[k] == s[k - 1];
      }
    }
  }

  /** The kept indices run in increasing order. */
  lemma {:induction false} ScrubIndicesIncreasing(pieces: seq<string>)
    ensures Increasing(ScrubIndices(pieces))
  {
    if |pieces| > 0 {
      var tail := pieces[1..];
      ScrubIndicesIncreasing(tail);
      ShiftedIncreasing(ScrubIndices(tail));
      var shifted := Shifted(ScrubIndices(tail));
      if IsAlnum(Strip(pieces[0])) {
        assert ScrubIndices(pieces) == [0] + shifted;
      } else {
        assert ScrubIndices(pieces) == shifted;
      }
    }
  }

  /** Every piece that strips to an alphanumeric word is kept, at its index. */
  lemma {:induction false} ScrubIndicesComplete(pieces: seq<string>)
    ensures forall i :: 0 <= i < |pieces| && IsAlnum(Strip(pieces[i])) ==> i in ScrubIndices(pieces)
  {
    if |pieces| > 0 {
      var tail := pieces[1..];
      ScrubIndicesComplete(tail);
      var restIdx := ScrubIndices(tail);
      var h := if IsAlnum(Strip(pieces[0])) then 1 else 0;
      var idx := ScrubIndices(pieces);
      assert idx == (if h == 1 then [0] else []) + Shifted(restIdx);
      forall i | 0 <= i < |pieces| && IsAlnum(Strip(pieces[i]))
        ensures i in idx
      {
        if i == 0 {
          assert idx[0] == 0;
        } else {
          assert tail[i - 1] == pieces[i];
          var j :| 0 <= j < |restIdx| && restIdx[j] == i - 1;
          assert idx[h + j] == i;
        }
      }
    }
  }

  /**
   * The kept words are the stripped pieces at the kept indices, which run
   * in increasing order and take in every piece that strips to an
   * alphanumeric word: the input's order and repetitions are kept, and
   * nothing else is.
   */
  lemma ScrubPiecesSpec(pieces: seq<string>)
    ensures forall k :: 0 <= k < |ScrubPieces(pieces)| ==>
      && ScrubIndices(pieces)[k] < |pieces|
      && ScrubPieces(pieces)[k] == Strip(pieces[ScrubIndices(pieces)[k]])
      && IsAlnum(ScrubPieces(pieces)[k])
    ensures forall k, m :: 0 <= k < m < |ScrubIndices(pieces)| ==> ScrubIndices(pieces)[k] < ScrubIndices(pieces)[m]
    ensures forall i :: 0 <= i < |pieces| && IsAlnum(Strip(pieces[i])) ==> i in ScrubIndices(pieces)
    ensures forall i :: 0 <= i < |pieces| && IsAlnum(Strip(pieces[i])) ==> Strip(pieces[i]) in ScrubPieces(pieces)
  {
    ScrubPiecesAt(pieces);
    ScrubIndicesIncreasing(pieces);
    ScrubIndicesComplete(pieces);
    forall i | 0 <= i < |pieces| && IsAlnum(Strip(pieces[i]))
      ensures Strip(pieces[i]) in ScrubPieces(pieces)
    {
      var k :| 0 <= k < |ScrubIndices(pieces)| && ScrubIndices(pieces)[k] == i;
      assert ScrubPieces(pieces)[k] == Strip(pieces[i]);
    }
  }

  /** `scrub_tags`: a tag string is split on `|` and cleaned; a list of tags is joined as it is. */
  function ScrubTags(tags: Tags): string {
    match tags
    case TagString(s) => JoinWith(" | ", ScrubPieces(Split(s, '|')))
    case TagList(items) => JoinWith(" | ", items)
  }

  // ---------------------------------------------------------- build_command

  const STRACE_FLAGS: seq<string> := ["strace", "-ttt", "-T", "-e", "open,stat", "-f", "-o"]

  /** The frame wrapper: the layer's own `wrapper` when given, else the setshot wrapper unless `setshot` is false. */
  function WrapperPath(ctx: Context, layer: Layer): string {
    if Truthy(layer.wrapper) then layer.wrapper.value
    else if layer.setshot != Some(false) then ctx.wrapperDir + "/cue3_wrap_frame"
    else ctx.wrapperDir + "/cue3_wrap_frame_no_ss"
  }

  function StraceTokens(layer: Layer): seq<string> {
    if layer.strace then STRACE_FLAGS + [layer.path + "/strace.log"] else []
  }

  function DevTokens(launcher: Launcher): seq<string> {
    (if launcher.dev then ["--dev"] else [])
    + (if Truthy(launcher.devUser) then ["--dev-user " + launcher.devUser.value] else [])
  }

  /** The command a render node runs for `layer`, token by token. */
  function CommandTokens(ctx: Context, launcher: Launcher, ol: Outline, layer: Layer): seq<string> {
    StraceTokens(layer)
    + [WrapperPath(ctx, layer), ctx.userDir, ctx.binDir + "/pycuerun",
       ol.path + " -e #IFRAME#-" + layer.name,
       " --version " + ctx.version, " --repos " + ctx.repos, "--debug"]
    + DevTokens(launcher)
  }

  /**
   * The tokens in order: the eight strace tokens when tracing, the wrapper,
   * the user directory, pycuerun, the script with the frame and layer, the
   * version, the repos, `--debug`, then `--dev` and `--dev-user` when set.
   */
  lemma CommandTokensLayout(ctx: Context, launcher: Launcher, ol: Outline, layer: Layer)
    ensures var r := CommandTokens(ctx, launcher, ol, layer);
      var o := if layer.strace then 8 else 0;
      && |r| == 7 + o + (if launcher.dev then 1 else 0) + (if Truthy(launcher.devUser) then 1 else 0)
      && (layer.strace ==> r[..7] == STRACE_FLAGS && r[7] == layer.path + "/strace.log")
      && r[o] == WrapperPath(ctx, layer)
      && r[o + 1] == ctx.userDir
      && r[o + 2] == ctx.binDir + "/pycuerun"
      && r[o + 3] == ol.path + " -e #IFRAME#-" + layer.name
      && r[o + 4] == " --version " + ctx.version
      && r[o + 5] == " --repos " + ctx.repos
      && r[o + 6] == "--debug"
      && (launcher.dev ==> r[o + 7] == "--dev")
      && (Truthy(launcher.devUser) ==> r[|r| - 1] == "--dev-user " + launcher.devUser.value)
  {
  }

  /** `build_command`: grows the command list one token at a time. */
  method BuildCommand(ctx: Context, launcher: Launcher, ol: Outline, layer: Layer) returns (command: seq<string>)
    ensures command == CommandTokens(ctx, launcher, ol, layer)
  {
    command := [];
    if layer.strace {
      command := command + ["strace"];
      command := command + ["-ttt"];
      command := command + ["-T"];
      command := command + ["-e"];
      command := command + ["open,stat"];
      command := command + ["-f"];
      command := command + ["-o"];
      command := command + [layer.path + "/strace.log"];
    }
    assert command == StraceTokens(layer);

    var wrapper;
    if Truthy(layer.wrapper) {
      wrapper := layer.wrapper.value;
    } else if layer.setshot != Some(false) {
      wrapper := ctx.wrapperDir + "/cue3_wrap_frame";
    } else {
      wrapper := ctx.wrapperDir + "/cue3_wrap_frame_no_ss";
    }

    ghost var prefix := command;
    command := command + [wrapper];
    command := command + [ctx.userDir];
    command := command + [ctx.binDir + "/pycuerun"];
    command := command + [ol.path + " -e #IFRAME#-" + layer.name];
    command := command + [" --version " + ctx.version];
    command := command + [" --repos " + ctx.repos];
    command := command + ["--debug"];
    assert command == prefix + [wrapper, ctx.userDir, ctx.binDir + "/pycuerun",
       ol.path + " -e #IFRAME#-" + layer.name, " --version " + ctx.version, " --repos " + ctx.repos, "--debug"];

    prefix := command;
    if launcher.dev {
      command := command + ["--dev"];
    }
    if Truthy(launcher.devUser) {
      command := command + ["--dev-user " + launcher.devUser.value];
    }
    assert command == prefix + DevTokens(launcher);
  }

  // ------------------------------------------------------ buildDependencies

  /** A `LayerOnSimFrame` edge can be written only when the layer it depends on lists a first frame. */
  predicate Resolves(ol: Outline, d: Depend) {
    d.onLayer < |ol.layers| && (d.dependType != LAYER_ON_SIM_FRAME || |ol.layers[d.onLayer].frames| > 0)
  }

  /** The length of the run of digits `s` starts with. */
  function DigitRun(s: string): (k: nat)
    ensures k <= |s| && AllDigits(s[..k]) && (k == |s| || !IsDigit(s[k]))
  {
    if |s| == 0 || !IsDigit(s[0]) then 0
    else
      var k := 1 + DigitRun(s[1..]);
      assert s[..k] == [s[0]] + s[1..][..k - 1];
      k
  }

  /** Reads an `onframe` reference back: an optionally signed run of digits, a `-`, then the layer name. */
  function ParseFrameRef(s: string): Option<(int, string)> {
    var neg := |s| > 0 && s[0] == '-';
    var body := if neg then s[1..] else s;
    var k := DigitRun(body);
    if k == 0 || k == |body| || body[k] != '-' then None
    else
      var n: int := DigitsValue(body[..k]);
      Some((if neg then -n else n, body[k + 1..]))
  }

  lemma {:induction false} DigitRunOf(a: string, b: string)
    requires AllDigits(a) && (b == [] || !IsDigit(b[0]))
    ensures DigitRun(a + b) == |a|
  {
    if |a| > 0 {
      assert (a + b)[0] == a[0] && (a + b)[1..] == a[1..] + b;
      DigitRunOf(a[1..], b);
    } else {
      assert a + b == b;
    }
  }

  lemma FrameRefNonNegative(z: string, layer: string, frame: int)
    requires |z| >= 1 && AllDigits(z) && DigitsValue(z) == frame
    ensures ParseFrameRef(z + "-" + layer) == Some((frame, layer))
  {
    var s := z + "-" + layer;
    assert IsDigit(z[0]);
    assert s == z + ("-" + layer);
    DigitRunOf(z, "-" + layer);
    assert s[..|z|] == z && s[|z|] == '-' && s[|z| + 1..] == layer;
  }

  lemma FrameRefNegative(z: string, layer: string, frame: int)
    requires |z| >= 2 && z[0] == '-' && AllDigits(z[1..]) && DigitsValue(z[1..]) == -frame
    ensures ParseFrameRef(z + "-" + layer) == Some((frame, layer))
  {
    var s := z + "-" + layer;
    var d := z[1..];
    assert s == [z[0]] + (d + ("-" + layer));
    assert s[1..] == d + ("-" + layer);
    DigitRunOf(d, "-" + layer);
    assert s[1..][..|d|] == d;
    assert s[1..][|d|] == '-';
    assert s[1..][|d| + 1..] == layer;
  }

  /** Reading an `onframe` reference back gives the frame and the layer name it was made from. */
  lemma FrameRefRoundTrip(frame: int, layer: string)
    ensures ParseFrameRef(FrameRef(frame, layer)) == Some((frame, layer))
  {
    var z := ZeroPad4(frame);
    ZeroPad4Value(frame);
    if frame >= 0 {
      FrameRefNonNegative(z, layer, frame);
    } else {
      FrameRefNegative(z, layer, frame);
    }
  }

  /** The `onframe` text: the frame as `%04d`, a `-`, then the layer name. */
  function FrameRef(frame: int, layer: string): (r: string)
  {
    ZeroPad4(frame) + "-" + layer
  }

  /** The attributes of a `<depend>`: its type and its any-frame flag as `True`/`False`. */
  function DependAttrs(d: Depend): map<string, string> {
    map["type" := d.dependType, "anyframe" := BoolToStr(d.anyFrame)]
  }

  /** The `<depend>` record of edge `d` of `layer`. */
  function DependRecord(ol: Outline, layer: Layer, d: Depend): Element
    requires Resolves(ol, d)
  {
    var target := ol.layers[d.onLayer];
    var on :=
      if d.dependType == LAYER_ON_SIM_FRAME then Leaf("onframe", Some(FrameRef(target.frames[0], target.name)))
      else Leaf("onlayer", Some(target.name));
    Element("depend", DependAttrs(d), None,
      [Leaf("depjob", Some(ol.name)), Leaf("deplayer", Some(layer.name)), Leaf("onjob", Some(ol.name)), on])
  }

  /** Every one of the first `n` edges of `layer` can be written. */
  predicate AllResolve(ol: Outline, layer: Layer, n: nat)
    requires n <= |layer.depends|
  {
    forall k :: 0 <= k < n ==> Resolves(ol, layer.depends[k])
  }

  /** The index of the first of the first `n` edges that cannot be written, or `n` when there is none. */
  function FirstUnresolved(ol: Outline, layer: Layer, n: nat): (f: nat)
    requires n <= |layer.depends|
    ensures f <= n && AllResolve(ol, layer, f)
    ensures f < n ==> !Resolves(ol, layer.depends[f])
  {
    if n == 0 then 0
    else
      var f := FirstUnresolved(ol, layer, n - 1);
      if f < n - 1 || Resolves(ol, layer.depends[n - 1]) then (if f < n - 1 then f else n) else n - 1
  }

  /** The records of the first `n` edges of `layer`, one per edge, in edge order. */
  function DependRecords(ol: Outline, layer: Layer, n: nat): (r: seq<Element>)
    requires n <= |layer.depends| && AllResolve(ol, layer, n)
    ensures |r| == n
  {
    if n == 0 then [] else DependRecords(ol, layer, n - 1) + [DependRecord(ol, layer, layer.depends[n - 1])]
  }

  /** Record `k` is the record of edge `k`. */
  lemma {:induction false} DependRecordsIndex(ol: Outline, layer: Layer, n: nat, k: nat)
    requires n <= |layer.depends| && AllResolve(ol, layer, n) && k < n
    ensures DependRecords(ol, layer, n)[k] == DependRecord(ol, layer, layer.depends[k])
  {
    var prefix := DependRecords(ol, layer, n - 1);
    var last := DependRecord(ol, layer, layer.depends[n - 1]);
    assert DependRecords(ol, layer, n) == prefix + [last];
    if k < n - 1 {
      DependRecordsIndex(ol, layer, n - 1, k);
      assert (prefix + [last])[k] == prefix[k];
    }
  }

  /** One more edge that resolves adds its record after the others. */
  lemma DependRecordsStep(ol: Outline, layer: Layer, i: nat)
    requires i < |layer.depends| && AllResolve(ol, layer, i) && Resolves(ol, layer.depends[i])
    ensures AllResolve(ol, layer, i + 1)
    ensures DependRecords(ol, layer, i + 1) == DependRecords(ol, layer, i) + [DependRecord(ol, layer, layer.depends[i])]
  {
  }

  /** What buildDependencies appends for a layer, and the error that stopped it, if any. */
  datatype Written = Written(records: seq<Element>, error: Option<SerializeError>)

  /**
   * The edges up to the first one that cannot be written each get their
   * record; that one gets its bare `<depend>` and stops the layer with an error.
   */
  function DependsWritten(ol: Outline, layer: Layer): (w: Written)
    requires TargetsIn(ol, layer)
  {
    var f := FirstUnresolved(ol, layer, |layer.depends|);
    if f == |layer.depends| then Written(DependRecords(ol, layer, f), None)
    else
      var d := layer.depends[f];
      Written(DependRecords(ol, layer, f) + [Element("depend", DependAttrs(d), None, [])],
              Some(NoFrameToDependOn(layer.name, ol.layers[d.onLayer].name)))
  }

  /** The first failing edge stays the first one however many edges follow. */
  lemma {:induction false} FirstUnresolvedStays(ol: Outline, layer: Layer, m: nat, n: nat)
    requires m <= n <= |layer.depends|
    requires FirstUnresolved(ol, layer, m) < m
    ensures FirstUnresolved(ol, layer, n) == FirstUnresolved(ol, layer, m)
  {
    if m < n {
      FirstUnresolvedStays(ol, layer, m, n - 1);
    }
  }

  /** When every edge so far resolved, the first failure is at `n` exactly when all `n` resolve. */
  lemma FirstUnresolvedAll(ol: Outline, layer: Layer, n: nat)
    requires n <= |layer.depends|
    ensures FirstUnresolved(ol, layer, n) == n <==> AllResolve(ol, layer, n)
  {
  }

  /** When every edge resolves, each gets its record and there is no error. */
  lemma DependsWrittenAll(ol: Outline, layer: Layer)
    requires TargetsIn(ol, layer) && AllResolve(ol, layer, |layer.depends|)
    ensures DependsWritten(ol, layer) == Written(DependRecords(ol, layer, |layer.depends|), None)
  {
    FirstUnresolvedAll(ol, layer, |layer.depends|);
  }

  /** The first edge `i` that does not resolve ends the layer: the records before it, its bare `<depend>`, the error. */
  lemma DependsWrittenStops(ol: Outline, layer: Layer, i: nat)
    requires TargetsIn(ol, layer) && i < |layer.depends|
    requires AllResolve(ol, layer, i) && !Resolves(ol, layer.depends[i])
    ensures DependsWritten(ol, layer) == Written(
      DependRecords(ol, layer, i) + [Element("depend", DependAttrs(layer.depends[i]), None, [])],
      Some(NoFrameToDependOn(layer.name, ol.layers[layer.depends[i].onLayer].name)))
  {
    FirstUnresolvedAll(ol, layer, i);
    assert FirstUnresolved(ol, layer, i + 1) == i;
    FirstUnresolvedStays(ol, layer, i + 1, |layer.depends|);
  }

  /**
   * The body of buildDependencies' loop for one edge: the `<depend>` with its
   * four children, or, when a `LayerOnSimFrame` target lists no frame, the
   * bare `<depend>` and the error.
   */
  method BuildDepend(ol: Outline, layer: Layer, dep: Depend) returns (record: Element, error: Option<SerializeError>)
    requires dep.onLayer < |ol.layers|
    ensures error.None? <==> Resolves(ol, dep)
    ensures error.None? ==> record == DependRecord(ol, layer, dep)
    ensures error.Some? ==>
      && record == Element("depend", DependAttrs(dep), None, [])
      && error == Some(NoFrameToDependOn(layer.name, ol.layers[dep.onLayer].name))
  {
    var depend := new ElementNode("depend", DependAttrs(dep));
    var target := ol.layers[dep.onLayer];
    if dep.dependType == LAYER_ON_SIM_FRAME && |target.frames| == 0 {
      return depend.Value(), Some(NoFrameToDependOn(layer.name, target.name));
    }
    var depjob := SubElement(depend, "depjob", Some(ol.name));
    var deplayer := SubElement(depend, "deplayer", Some(layer.name));
    var onjob := SubElement(depend, "onjob", Some(ol.name));
    assert depend.children == [depjob, deplayer, onjob];
    var on;
    if dep.dependType == LAYER_ON_SIM_FRAME {
      var firstFrame := target.frames[0];
      on := SubElement(depend, "onframe", Some(FrameRef(firstFrame, target.name)));
    } else {
      on := SubElement(depend, "onlayer", Some(target.name));
    }
    assert depend.children == [depjob, deplayer, onjob, on];
    record, error := depend.Value(), None;
  }

  /**
   * `buildDependencies`: appends one `<depend>` per edge of `layer` to
   * `allDepends`. When a `LayerOnSimFrame` target lists no frame, the bare
   * `<depend>` already appended stays and the error is returned.
   */
  method BuildDependencies(ol: Outline, layer: Layer, allDepends: ElementNode) returns (error: Option<SerializeError>)
    requires TargetsIn(ol, layer)
    modifies allDepends
    ensures allDepends.children == old(allDepends.children) + DependsWritten(ol, layer).records
    ensures error == DependsWritten(ol, layer).error
  {
    ghost var before := allDepends.children;
    for i := 0 to |layer.depends|
      invariant AllResolve(ol, layer, i)
      invariant allDepends.children == before + DependRecords(ol, layer, i)
    {
      var record, err := BuildDepend(ol, layer, layer.depends[i]);
      allDepends.Append(record);
      ConcatAssoc(before, DependRecords(ol, layer, i), [record]);
      if err.Some? {
        DependsWrittenStops(ol, layer, i);
        return err;
      }
      DependRecordsStep(ol, layer, i);
    }
    DependsWrittenAll(ol, layer);
    error := None;
  }

  // -------------------------------------------------------------- serialize

  /** serialize's three skips: a layer is submitted when it registers, has no parent and has a non-empty range. */
  predicate Kept(layer: Layer) {
    layer.register && layer.parent.None? && Truthy(layer.frameRange)
  }

  /** The indices of the submitted layers. */
  function KeptIndices(layers: seq<Layer>): (idx: seq<nat>)
    ensures |idx| <= |layers|
  {
    if |layers| == 0 then []
    else KeptIndices(layers[..|layers| - 1]) + (if Kept(layers[|layers| - 1]) then [|layers| - 1] else [])
  }

  /** The kept indices are the indices of the submitted layers, each once, in increasing order. */
  lemma {:induction false} KeptIndicesSpec(layers: seq<Layer>)
    ensures forall k :: 0 <= k < |KeptIndices(layers)| ==>
      KeptIndices(layers)[k] < |layers| && Kept(layers[KeptIndices(layers)[k]])
    ensures forall k, m :: 0 <= k < m < |KeptIndices(layers)| ==> KeptIndices(layers)[k] < KeptIndices(layers)[m]
    ensures forall i :: 0 <= i < |layers| && Kept(layers[i]) ==> i in KeptIndices(layers)
  {
    if |layers| > 0 {
      var n := |layers| - 1;
      var init := layers[..n];
      KeptIndicesSpec(init);
      var pre := KeptIndices(init);
      var tail := if Kept(layers[n]) then [n] else [];
      var idx := KeptIndices(layers);
      assert idx == pre + tail;
      forall k | 0 <= k < |idx|
        ensures idx[k] < |layers| && Kept(layers[idx[k]])
      {
        if k < |pre| {
          assert idx[k] == pre[k];
          assert pre[k] < |init| && Kept(init[pre[k]]);
          assert layers[pre[k]] == init[pre[k]];
        } else {
          assert tail == [n];
          assert idx[k] == n;
        }
      }
      forall k, m | 0 <= k < m < |idx|
        ensures idx[k] < idx[m]
      {
        assert idx[k] == pre[k];
        if m < |pre| {
          assert idx[m] == pre[m];
        }
      }
      forall i | 0 <= i < |layers| && Kept(layers[i])
        ensures i in idx
      {
        if i < n {
          assert init[i] == layers[i];
          assert i in pre;
        } else {
          assert tail == [n];
          assert idx[|pre|] == i;
        }
      }
    }
  }

  /** The layers serialize submits, in declaration order. */
  function KeptLayers(layers: seq<Layer>): (r: seq<Layer>)
    ensures |r| == |KeptIndices(layers)|
  {
    if |layers| == 0 then []
    else KeptLayers(layers[..|layers| - 1]) + (if Kept(layers[|layers| - 1]) then [layers[|layers| - 1]] else [])
  }

  /** Submitted layer `k` is the layer at kept index `k`. */
  lemma {:induction false} KeptLayersIndex(layers: seq<Layer>, k: nat)
    requires k < |KeptLayers(layers)|
    ensures KeptIndices(layers)[k] < |layers| && KeptLayers(layers)[k] == layers[KeptIndices(layers)[k]]
  {
    var n := |layers| - 1;
    var init := layers[..n];
    var pre := KeptLayers(init);
    assert KeptLayers(layers) == pre + (if Kept(layers[n]) then [layers[n]] else []);
    assert KeptIndices(layers) == KeptIndices(init) + (if Kept(layers[n]) then [n] else []);
    if k < |pre| {
      KeptLayersIndex(init, k);
      assert KeptLayers(layers)[k] == pre[k];
      assert KeptIndices(layers)[k] == KeptIndices(init)[k];
    }
  }

  /** `<key name=k>v</key>` for the environment entry `k -> (v, flag)`. */
  function KeyElement(e: EnvEntry): Element {
    Element("key", map["name" := e.key], Some(e.value), [])
  }

  /** The children of `<env>`: one `<key>` per pre-setshot entry, in iteration order. */
  function EnvKeys(entries: seq<EnvEntry>): (r: seq<Element>)
    ensures |r| <= |entries|
  {
    if |entries| == 0 then []
    else
      var init := entries[..|entries| - 1];
      EnvKeys(init) + (if entries[|entries| - 1].preSetshot then [KeyElement(entries[|entries| - 1])] else [])
  }

  /** `k` is the `<key>` of some pre-setshot entry of `entries`. */
  predicate KeyOfPreset(entries: seq<EnvEntry>, k: Element) {
    exists i :: 0 <= i < |entries| && entries[i].preSetshot && k == KeyElement(entries[i])
  }

  /** Every `<key>` comes from a pre-setshot entry, and every pre-setshot entry has its `<key>`. */
  lemma {:induction false} EnvKeysSpec(entries: seq<EnvEntry>)
    ensures forall m :: 0 <= m < |EnvKeys(entries)| ==> KeyOfPreset(entries, EnvKeys(entries)[m])
    ensures forall i :: 0 <= i < |entries| && entries[i].preSetshot ==> KeyElement(entries[i]) in EnvKeys(entries)
  {
    if |entries| > 0 {
      var init := entries[..|entries| - 1];
      var last := entries[|entries| - 1];
      EnvKeysSpec(init);
      var prefix := EnvKeys(init);
      var tail := if last.preSetshot then [KeyElement(last)] else [];
      assert EnvKeys(entries) == prefix + tail;
      forall m | 0 <= m < |EnvKeys(entries)|
        ensures KeyOfPreset(entries, EnvKeys(entries)[m])
      {
        if m < |prefix| {
          assert EnvKeys(entries)[m] == prefix[m];
          assert KeyOfPreset(init, prefix[m]);
          var i :| 0 <= i < |init| && init[i].preSetshot && prefix[m] == KeyElement(init[i]);
          assert entries[i] == init[i];
          assert 0 <= i < |entries| && entries[i].preSetshot && EnvKeys(entries)[m] == KeyElement(entries[i]);
        } else {
          var j := |entries| - 1;
          assert last.preSetshot;
          assert EnvKeys(entries)[m] == KeyElement(entries[j]);
          assert 0 <= j < |entries| && entries[j].preSetshot && EnvKeys(entries)[m] == KeyElement(entries[j]);
        }
      }
      forall i | 0 <= i < |entries| && entries[i].preSetshot
        ensures KeyElement(entries[i]) in EnvKeys(entries)
      {
        if i < |init| {
          assert entries[i] == init[i];
          assert KeyElement(init[i]) in prefix;
        } else {
          assert KeyElement(last) in tail;
        }
      }
    } else {
      assert EnvKeys(entries) == [];
    }
  }

  /** Entries with distinct keys give distinct `<key>`s: each pre-setshot entry is written once. */
  lemma {:induction false} EnvKeysOnce(entries: seq<EnvEntry>)
    requires DistinctKeys(entries)
    ensures forall m, n :: 0 <= m < n < |EnvKeys(entries)| ==> EnvKeys(entries)[m] != EnvKeys(entries)[n]
  {
    if |entries| > 0 {
      var init := entries[..|entries| - 1];
      var last := entries[|entries| - 1];
      assert DistinctKeys(init) by {
        forall i, j | 0 <= i < j < |init|
          ensures init[i].key != init[j].key
        {
          assert init[i] == entries[i] && init[j] == entries[j];
        }
      }
      EnvKeysOnce(init);
      EnvKeysSpec(init);
      var prefix := EnvKeys(init);
      var keys := EnvKeys(entries);
      assert keys == prefix + (if last.preSetshot then [KeyElement(last)] else []);
      forall m, n | 0 <= m < n < |keys|
        ensures keys[m] != keys[n]
      {
        if n < |prefix| {
          assert keys[m] == prefix[m] && keys[n] == prefix[n];
        } else {
          assert keys[m] == prefix[m] && keys[n] == KeyElement(last);
          assert KeyOfPreset(init, prefix[m]);
          var i :| 0 <= i < |init| && init[i].preSetshot && prefix[m] == KeyElement(init[i]);
          assert init[i] == entries[i];
          assert entries[i].key != last.key;
          assert prefix[m].attrs["name"] != KeyElement(last).attrs["name"];
        }
      }
    }
  }

  /** The environment loop of serialize: only pre-setshot entries are passed up to the cue. */
  method WriteEnv(env: ElementNode, entries: seq<EnvEntry>)
    modifies env
    ensures env.children == old(env.children) + EnvKeys(entries)
  {
    for i := 0 to |entries|
      invariant env.children == old(env.children) + EnvKeys(entries[..i])
    {
      assert entries[..i + 1][..i] == entries[..i];
      if entries[i].preSetshot {
        env.Append(KeyElement(entries[i]));
      }
    }
    assert entries[..|entries|] == entries;
  }

  /** The user the job runs as: the `user` flag when truthy, else the current user. */
  function ResolvedUser(ctx: Context, launcher: Launcher): string {
    if Truthy(launcher.user) then launcher.user.value else ctx.user
  }

  /** The `<os>` text: the `os` option, else `OL_OS`, else none. */
  function OsTag(ctx: Context, launcher: Launcher): Option<string> {
    if Truthy(launcher.os) then launcher.os
    else if Truthy(ctx.olOs) then ctx.olOs
    else None
  }

  /** The children of `<spec>` before `<job>`. */
  function HeaderElements(ctx: Context, launcher: Launcher): seq<Element> {
    [Leaf("facility", launcher.facility), Leaf("show", Some(ctx.show)), Leaf("shot", launcher.shot),
     Leaf("user", Some(ResolvedUser(ctx, launcher)))]
    + (if launcher.nomail then [] else [Leaf("email", Some(ctx.user + "@" + ctx.domain))])
    + [Leaf("uid", Some(IntToDecimal(ctx.uid)))]
  }

  /** `[Leaf(tag, text)]` when there is a text, nothing otherwise. */
  function Optional(tag: string, text: Option<string>): seq<Element> {
    if text.Some? then [Leaf(tag, text)] else []
  }

  /** The children of `<job>` before `<env>`. */
  function JobSettings(ctx: Context, launcher: Launcher, ol: Outline): seq<Element> {
    [Leaf("paused", Some(BoolToStr(launcher.pause))),
     Leaf("maxretries", Some(IntToDecimal(launcher.maxRetries))),
     Leaf("autoeat", Some(BoolToStr(launcher.autoEat)))]
    + (if ol.localbook != map[] then [Element("localbook", ol.localbook, None, [])] else [])
    + Optional("os", OsTag(ctx, launcher))
  }

  predicate TagsTruthy(t: Tags) {
    match t
    case TagString(s) => s != ""
    case TagList(items) => items != []
  }

  /** The `<tags>` text: `OL_TAG_OVERRIDE` when set, else the layer's tags, scrubbed either way. */
  function TagsText(ctx: Context, layer: Layer): Option<string> {
    if Truthy(ctx.tagOverride) then Some(ScrubTags(TagString(ctx.tagOverride.value)))
    else if layer.tags.Some? && TagsTruthy(layer.tags.value) then Some(ScrubTags(layer.tags.value))
    else None
  }

  /** The `<service>` text: the first comma-separated part of the service, stripped; "default" when there is none. */
  function ServiceName(service: Option<string>): (r: string)
    ensures service.None? ==> r == "default"
  {
    match service
    case None => "default"
    case Some(s) => Strip(Split(s, ',')[0])
  }

  function ThreadableText(layer: Layer): Option<string> {
    match layer.threadable
    case Some(b) => Some(BoolToStr(b))
    case None => None
  }

  /** The optional children of a `<layer>`, in the order serialize writes them. */
  function LayerOptions(ctx: Context, layer: Layer): seq<Element> {
    Optional("cores", layer.cores)
    + Optional("threadable", ThreadableText(layer))
    + Optional("memory", layer.memory)
    + Optional("tags", TagsText(ctx, layer))
  }

  /** The `<layer>` element serialize writes for a submitted layer. */
  function LayerElement(ctx: Context, launcher: Launcher, ol: Outline, layer: Layer): Element {
    Element("layer", map["name" := layer.name, "type" := layer.layerType], None,
      [Leaf("cmd", Some(JoinWith(" ", CommandTokens(ctx, launcher, ol, layer)))),
       Leaf("range", layer.frameRange),
       Leaf("chunk", Some(IntToDecimal(layer.chunk)))]
      + LayerOptions(ctx, layer)
      + [Element("services", map[], None, [Leaf("service", Some(ServiceName(layer.service)))])])
  }

  /** serialize's Cue3-specific options of a layer: cores, threadable, memory and tags, each when set. */
  method WriteLayerOptions(ctx: Context, layer: Layer, specLayer: ElementNode)
    modifies specLayer
    ensures specLayer.children == old(specLayer.children) + LayerOptions(ctx, layer)
  {
    ghost var before := specLayer.children;
    if layer.cores.Some? {
      var _ := SubElement(specLayer, "cores", layer.cores);
    }
    ghost var opts := Optional("cores", layer.cores);
    assert specLayer.children == before + opts;
    if layer.threadable.Some? {
      var _ := SubElement(specLayer, "threadable", Some(BoolToStr(layer.threadable.value)));
    }
    ConcatAssoc(before, opts, Optional("threadable", ThreadableText(layer)));
    opts := opts + Optional("threadable", ThreadableText(layer));
    assert specLayer.children == before + opts;
    if layer.memory.Some? {
      var _ := SubElement(specLayer, "memory", layer.memory);
    }
    ConcatAssoc(before, opts, Optional("memory", layer.memory));
    opts := opts + Optional("memory", layer.memory);
    assert specLayer.children == before + opts;
    if Truthy(ctx.tagOverride) {
      var _ := SubElement(specLayer, "tags", Some(ScrubTags(TagString(ctx.tagOverride.value))));
    } else if layer.tags.Some? && TagsTruthy(layer.tags.value) {
      var _ := SubElement(specLayer, "tags", Some(ScrubTags(layer.tags.value)));
    }
    ConcatAssoc(before, opts, Optional("tags", TagsText(ctx, layer)));
    opts := opts + Optional("tags", TagsText(ctx, layer));
    assert specLayer.children == before + opts;
  }

  /** The body of serialize's layer loop for a layer that passed the filters, up to the dependencies. */
  method BuildLayer(ctx: Context, launcher: Launcher, ol: Outline, layer: Layer) returns (e: Element)
    ensures e == LayerElement(ctx, launcher, ol, layer)
  {
    var specLayer := new ElementNode("layer", map["name" := layer.name, "type" := layer.layerType]);
    var command := BuildCommand(ctx, launcher, ol, layer);
    var cmd := SubElement(specLayer, "cmd", Some(JoinWith(" ", command)));
    var range := SubElement(specLayer, "range", layer.frameRange);
    var chunk := SubElement(specLayer, "chunk", Some(IntToDecimal(layer.chunk)));
    assert specLayer.children == [cmd, range, chunk];
    WriteLayerOptions(ctx, layer, specLayer);
    var service := ServiceName(layer.service);
    specLayer.Append(Element("services", map[], None, [Leaf("service", Some(service))]));
    e := specLayer.Value();
  }

  /** The `<layers>` children and the `<depends>` children serialize has written so far. */
  datatype Compiled = Compiled(layers: seq<Element>, depends: seq<Element>)

  /** One pass of serialize's layer loop: a skipped layer writes nothing, a submitted one its `<layer>` and its dependencies. */
  function CompileStep(ctx: Context, launcher: Launcher, ol: Outline, c: Compiled, layer: Layer): Result<Compiled, SerializeError>
    requires TargetsIn(ol, layer)
  {
    if !Kept(layer) then Success(c)
    else
      var w := DependsWritten(ol, layer);
      if w.error.Some? then Failure(w.error.value)
      else Success(Compiled(c.layers + [LayerElement(ctx, launcher, ol, layer)], c.depends + w.records))
  }

  /** serialize's layer loop over the first `n` layers. */
  function CompileLayers(ctx: Context, launcher: Launcher, ol: Outline, n: nat): Result<Compiled, SerializeError>
    requires WellFormed(ol) && n <= |ol.layers|
  {
    if n == 0 then Success(Compiled([], []))
    else
      match CompileLayers(ctx, launcher, ol, n - 1)
      case Failure(e) => Failure(e)
      case Success(c) => CompileStep(ctx, launcher, ol, c, ol.layers[n - 1])
  }

  /** Once a layer fails, the loop fails with that error. */
  lemma {:induction false} CompileFailureSticks(ctx: Context, launcher: Launcher, ol: Outline, m: nat, n: nat)
    requires WellFormed(ol) && m <= n <= |ol.layers|
    requires CompileLayers(ctx, launcher, ol, m).Failure?
    ensures CompileLayers(ctx, launcher, ol, n) == CompileLayers(ctx, launcher, ol, m)
  {
    if m < n {
      CompileFailureSticks(ctx, launcher, ol, m, n - 1);
    }
  }

  /** The `<spec>` element for the given layer and dependency children. */
  function SpecRoot(ctx: Context, launcher: Launcher, ol: Outline, c: Compiled): Element {
    Element("spec", map[], None,
      HeaderElements(ctx, launcher)
      + [Element("job", map["name" := ol.name], None,
           JobSettings(ctx, launcher, ol)
           + [Element("env", map[], None, EnvKeys(ol.env)), Element("layers", map[], None, c.layers)])]
      + [Element("depends", map[], None, c.depends)])
  }

  /** What serialize returns for the given inputs. */
  function SpecDocument(ctx: Context, launcher: Launcher, ol: Outline): Result<JobSpec, SerializeError>
    requires WellFormed(ol)
  {
    match CompileLayers(ctx, launcher, ol, |ol.layers|)
    case Failure(e) => Failure(e)
    case Success(c) =>
      if c.layers == [] then Failure(NoLaunchableLayers(ol.frameRange))
      else Success(JobSpec(XML_DECLARATION, DOCTYPE, SpecRoot(ctx, launcher, ol, c)))
  }

  /** serialize's header: facility, show, shot, the resolved user, the e-mail unless `nomail`, the uid. */
  method WriteHeader(ctx: Context, launcher: Launcher, root: ElementNode)
    modifies root
    ensures root.children == old(root.children) + HeaderElements(ctx, launcher)
  {
    ghost var before := root.children;
    var facility := SubElement(root, "facility", launcher.facility);
    var show := SubElement(root, "show", Some(ctx.show));
    var shot := SubElement(root, "shot", launcher.shot);
    var user := launcher.user;
    if !Truthy(user) {
      user := Some(ctx.user);
    }
    var userElement := SubElement(root, "user", user);
    ghost var written := [facility, show, shot, userElement];
    assert root.children == before + written;
    if !launcher.nomail {
      var _ := SubElement(root, "email", Some(ctx.user + "@" + ctx.domain));
    }
    ghost var mail := if launcher.nomail then [] else [Leaf("email", Some(ctx.user + "@" + ctx.domain))];
    ConcatAssoc(before, written, mail);
    written := written + mail;
    assert root.children == before + written;
    var uid := SubElement(root, "uid", Some(IntToDecimal(ctx.uid)));
    ConcatAssoc(before, written, [uid]);
  }

  /** serialize's job settings: paused, retries, auto-eat, the localbook hint when given, the os when known. */
  method WriteJobSettings(ctx: Context, launcher: Launcher, ol: Outline, j: ElementNode)
    modifies j
    ensures j.children == old(j.children) + JobSettings(ctx, launcher, ol)
  {
    ghost var before := j.children;
    var paused := SubElement(j, "paused", Some(BoolToStr(launcher.pause)));
    var maxRetries := SubElement(j, "maxretries", Some(IntToDecimal(launcher.maxRetries)));
    var autoEat := SubElement(j, "autoeat", Some(BoolToStr(launcher.autoEat)));
    ghost var written := [paused, maxRetries, autoEat];
    assert j.children == before + written;
    ghost var book := if ol.localbook != map[] then [Element("localbook", ol.localbook, None, [])] else [];
    if ol.localbook != map[] {
      j.Append(Element("localbook", ol.localbook, None, []));
    }
    ConcatAssoc(before, written, book);
    written := written + book;
    assert j.children == before + written;
    if Truthy(launcher.os) {
      var _ := SubElement(j, "os", launcher.os);
    } else if Truthy(ctx.olOs) {
      var _ := SubElement(j, "os", ctx.olOs);
    }
    ConcatAssoc(before, written, Optional("os", OsTag(ctx, launcher)));
  }

  /** The `<job>` element up to its `<env>`: the job settings, then the pre-setshot environment. */
  method BuildJobHead(ctx: Context, launcher: Launcher, ol: Outline) returns (j: ElementNode)
    ensures fresh(j)
    ensures j.tag == "job" && j.attrs == map["name" := ol.name]
    ensures j.children == JobSettings(ctx, launcher, ol) + [Element("env", map[], None, EnvKeys(ol.env))]
  {
    j := new ElementNode("job", map["name" := ol.name]);
    WriteJobSettings(ctx, launcher, ol, j);
    var env := new ElementNode("env", map[]);
    WriteEnv(env, ol.env);
    assert env.children == EnvKeys(ol.env);
    j.Append(env.Value());
  }

  /** The body of serialize's layer loop for one layer: nothing for a skipped layer, else its `<layer>` and its `<depend>`s. */
  method CompileLayer(ctx: Context, launcher: Launcher, ol: Outline, layer: Layer, layers: ElementNode, depends: ElementNode)
    returns (error: Option<SerializeError>)
    requires TargetsIn(ol, layer) && layers != depends
    modifies layers, depends
    ensures error.None? ==>
      CompileStep(ctx, launcher, ol, Compiled(old(layers.children), old(depends.children)), layer)
      == Success(Compiled(layers.children, depends.children))
    ensures error.Some? ==>
      CompileStep(ctx, launcher, ol, Compiled(old(layers.children), old(depends.children)), layer) == Failure(error.value)
  {
    if !layer.register {
      return None;
    }
    if layer.parent.Some? {
      return None;
    }
    var range := layer.frameRange;
    if !Truthy(range) {
      return None;
    }
    var specLayer := BuildLayer(ctx, launcher, ol, layer);
    layers.Append(specLayer);
    error := BuildDependencies(ol, layer, depends);
  }

  /** serialize's layer loop: every layer in order, stopping at the first dependency that cannot be written. */
  method CompileAll(ctx: Context, launcher: Launcher, ol: Outline, layers: ElementNode, depends: ElementNode)
    returns (error: Option<SerializeError>)
    requires WellFormed(ol) && layers != depends
    requires layers.children == [] && depends.children == []
    modifies layers, depends
    ensures error.None? ==> CompileLayers(ctx, launcher, ol, |ol.layers|) == Success(Compiled(layers.children, depends.children))
    ensures error.Some? ==> CompileLayers(ctx, launcher, ol, |ol.layers|) == Failure(error.value)
  {
    for i := 0 to |ol.layers|
      invariant CompileLayers(ctx, launcher, ol, i) == Success(Compiled(layers.children, depends.children))
    {
      assert TargetsIn(ol, ol.layers[i]);
      var err := CompileLayer(ctx, launcher, ol, ol.layers[i], layers, depends);
      if err.Some? {
        assert CompileLayers(ctx, launcher, ol, i + 1) == Failure(err.value);
        CompileFailureSticks(ctx, launcher, ol, i + 1, |ol.layers|);
        return err;
      }
    }
    error := None;
  }

  /** `serialize`: writes the job metadata, the environment and every submitted layer with its dependencies. */
  method Serialize(ctx: Context, launcher: Launcher, ol: Outline) returns (r: Result<JobSpec, SerializeError>)
    requires WellFormed(ol)
    ensures r == SpecDocument(ctx, launcher, ol)
  {
    var root := new ElementNode("spec", map[]);
    var depends := new ElementNode("depends", map[]);
    WriteHeader(ctx, launcher, root);
    assert root.children == HeaderElements(ctx, launcher);
    var j := BuildJobHead(ctx, launcher, ol);
    var layers := new ElementNode("layers", map[]);
    var error := CompileAll(ctx, launcher, ol, layers, depends);
    if error.Some? {
      return Failure(error.value);
    }
    if |layers.children| == 0 {
      return Failure(NoLaunchableLayers(ol.frameRange));
    }
    ghost var c := Compiled(layers.children, depends.children);
    ghost var env := Element("env", map[], None, EnvKeys(ol.env));
    j.Append(layers.Value());
    ConcatAssoc(JobSettings(ctx, launcher, ol), [env], [layers.Value()]);
    assert j.children == JobSettings(ctx, launcher, ol) + [env, Element("layers", map[], None, c.layers)];
    root.Append(j.Value());
    root.Append(depends.Value());
    assert root.Value() == SpecRoot(ctx, launcher, ol, c);
    r := Success(JobSpec(XML_DECLARATION, DOCTYPE, root.Value()));
  }
}
